/** The 512-bit signed integer: seven words and a signed high word, in two's complement. */
module BigSigned {
  import opened BigArithmetic
  import opened BigUnsigned
  import opened Bits
  import opened Numerals
  import opened Results
  import opened Words

  /** The number 512 bits stand for in two's complement. */
  ghost function Signed(v: nat): (x: int)
    requires v < Pow2(512)
    ensures 0 - Pow2(511) <= x < Pow2(511)
    ensures x < 0 <==> v >= Pow2(511)
  {
    EvenPower(511);
    if v >= Pow2(511) then v - Pow2(512) else v
  }

  ghost function Abs(x: int): nat {
    if x < 0 then 0 - x else x
  }

  /** Going through 512 bits is the identity on numbers in range. */
  lemma SignedWrap(x: int)
    requires 0 - Pow2(511) <= x < Pow2(511)
    ensures Signed(Wrap(x)) == x
  {
    hide Pow2;
    EvenPower(511);
  }

  /** Negation in 512 bits: exact, except that the minimum is its own negative. */
  lemma NegateSigned(v: nat)
    requires v < Pow2(512)
    ensures Signed(v) < 0 ==> Wrap(0 - v) == Abs(Signed(v))
  {
    hide Pow2;
    EvenPower(511);
  }

  /** Printed form of a signed number. */
  ghost function SignedText(x: int, base: int, introducer: bool, upper: bool): string
    requires ValidBase(base)
  {
    if x < 0 then "-" + Text(0 - x, base, introducer, upper) else Text(x, base, introducer, upper)
  }

  /** The number signed text denotes, however large. */
  function SignedDenoted(s: string): Option<int> {
    if s == "" then Some(0)
    else if s[0] == '-' then
      var v := Denoted(s[1..]);
      if v.Some? then Some(0 - v.value) else None
    else
      Denoted(if s[0] == '+' then s[1..] else s)
  }

  /** The signs `from_string` takes: one at most, in front of the number. */
  lemma SignedDenotedGrammar(s: string)
    ensures SignedDenoted("") == Some(0)
    ensures SignedDenoted("+" + s) == Denoted(s)
    ensures SignedDenoted("-" + s) == match Denoted(s) case None => None case Some(v) => Some(0 - v)
    ensures s != "" && s[0] !in {'+', '-'} ==> SignedDenoted(s) == Denoted(s)
  {
    hide Denoted;
    assert ("+" + s)[1..] == s && ("-" + s)[1..] == s;
  }

  /** The text of a signed number: a minus sign in front of the text of the magnitude of a negative one. */
  ghost predicate IsSignedNumeral(t: string, x: int, base: int, introducer: bool, upper: bool) {
    if x < 0 then t != "" && t[0] == '-' && IsNumeral(t[1..], 0 - x, base, introducer, upper)
    else IsNumeral(t, x, base, introducer, upper)
  }

  lemma SignedTextIsNumeral(x: int, base: int, introducer: bool, upper: bool)
    requires ValidBase(base)
    ensures IsSignedNumeral(SignedText(x, base, introducer, upper), x, base, introducer, upper)
  {
    hide Text, IsNumeral;
    TextIsNumeral(Abs(x), base, introducer, upper);
    if x < 0 {
      var t := Text(0 - x, base, introducer, upper);
      assert ("-" + t)[1..] == t;
    }
  }

  lemma ZeroText(base: int, introducer: bool, upper: bool)
    ensures IsSignedNumeral("0", 0, base, introducer, upper)
  {
  }

  /** Going through 512 bits keeps exactly the numbers in range; all others lose their value. */
  lemma SignedWrapExact(x: int)
    ensures Signed(Wrap(x)) == x <==> 0 - Pow2(511) <= x < Pow2(511)
  {
    if 0 - Pow2(511) <= x < Pow2(511) {
      SignedWrap(x);
    }
  }

  /** Printing then reading a signed number is the identity, however large. */
  lemma SignedTextParses(x: int, base: int, introducer: bool, upper: bool)
    requires base == 10 || (introducer && (base == 2 || base == 16))
    ensures SignedDenoted(SignedText(x, base, introducer, upper)) == Some(x)
  {
    hide Denoted, Digits;
    var t := SignedText(x, base, introducer, upper);
    TextParses(Abs(x), base, introducer, upper);
    if x < 0 {
      assert t[1..] == Text(0 - x, base, introducer, upper);
    } else {
      UnsignedTextStart(x, base, introducer, upper);
    }
  }

  lemma UnsignedTextStart(v: nat, base: int, introducer: bool, upper: bool)
    requires ValidBase(base)
    ensures var t := Text(v, base, introducer, upper); t != "" && t[0] != '-' && t[0] != '+'
  {
    if v > 0 {
      NoLeadingZero(v, base, upper);
      DigitsParse(v, base, upper);
    }
  }

  /** Sign bit of a word read as a signed 64-bit integer. */
  function SignedWord(w: Word): int {
    if w >= 0x8000_0000_0000_0000 then w - 0x1_0000_0000_0000_0000 else w
  }

  class Int512 {
    /** The seven words of `f_value` and then the bits of `f_high_value`, as they lie in memory. */
    const value: array<Word>

    ghost predicate Valid() {
      value.Length == 8
    }

    ghost function Unsigned(): (v: nat)
      requires Valid()
      reads value
      ensures v < Pow2(512)
    {
      ValBound(value[..]);
      Val(value[..])
    }

    ghost function Value(): (x: int)
      requires Valid()
      reads value
      ensures 0 - Pow2(511) <= x < Pow2(511)
    {
      Signed(Unsigned())
    }

    constructor ()
      ensures Valid() && fresh(value) && Unsigned() == 0
    {
      value := new Word[8](_ => 0);
      new;
      ValZeros(value[..]);
    }

    constructor FromUnsigned(rhs: Uint512)
      requires rhs.Valid()
      ensures Valid() && fresh(value) && value[..] == rhs.value[..] && Unsigned() == rhs.Value()
    {
      value := new Word[8](i requires 0 <= i < 8 reads rhs.value => rhs.value[i]);
      new;
      assert value[..] == rhs.value[..];
    }

    /** A number copied from memory. */
    constructor FromWords(words: seq<Word>)
      requires |words| == 8
      ensures Valid() && fresh(value) && value[..] == words && Unsigned() == Val(words)
    {
      value := new Word[8](i requires 0 <= i < 8 => words[i]);
      new;
      assert value[..] == words;
    }

    constructor Copy(rhs: Int512)
      requires rhs.Valid()
      ensures Valid() && fresh(value) && value[..] == rhs.value[..] && Unsigned() == rhs.Unsigned()
    {
      value := new Word[8](i requires 0 <= i < 8 reads rhs.value => rhs.value[i]);
      new;
      assert value[..] == rhs.value[..];
    }

    /** The same 512 bits read as an unsigned number. */
    method ToUnsigned() returns (u: Uint512)
      requires Valid()
      ensures u.Valid() && fresh(u) && fresh(u.value) && u.Value() == Unsigned()
    {
      u := new Uint512();
      forall i | 0 <= i < 8 {
        u.value[i] := value[i];
      }
      assert u.value[..] == value[..];
    }

    predicate IsNegative()
      requires Valid()
      reads value
    {
      SignedWord(value[7]) < 0
    }

    /** 1 when this is the greater number, -1 when it is the lesser, 0 when they are equal. */
    method Compare(rhs: Int512) returns (c: int)
      requires Valid() && rhs.Valid()
      ensures Value() < rhs.Value() ==> c == -1
      ensures Value() == rhs.Value() ==> c == 0
      ensures Value() > rhs.Value() ==> c == 1
    {
      hide Pow2;
      SignBit(value[..]);
      SignBit(rhs.value[..]);
      if value[7] != rhs.value[7] {
        HighWordOrder(value[..], rhs.value[..]);
        return if SignedWord(value[7]) > SignedWord(rhs.value[7]) then 1 else -1;
      }
      var idx := 6;
      while idx >= 0
        invariant -1 <= idx <= 6
        invariant forall k :: idx < k < 8 ==> value[k] == rhs.value[k]
      {
        if value[idx] != rhs.value[idx] {
          assert value[..][idx + 1..] == rhs.value[..][idx + 1..];
          if value[idx] > rhs.value[idx] {
            ValOrder(rhs.value[..], value[..], idx);
            return 1;
          }
          ValOrder(value[..], rhs.value[..], idx);
          return -1;
        }
        idx := idx - 1;
      }
      assert value[..] == rhs.value[..];
      return 0;
    }

    method SubAssign(rhs: Int512)
      requires Valid() && rhs.Valid() && (this == rhs || value != rhs.value)
      modifies value
      ensures Unsigned() == Wrap(old(Unsigned()) - old(rhs.Unsigned()))
    {
      Sub512(value, rhs.value);
    }

    /** Unary minus. */
    method Negate() returns (neg: Int512)
      requires Valid()
      ensures neg.Valid() && fresh(neg) && fresh(neg.value)
      ensures neg.Unsigned() == Wrap(0 - Unsigned())
    {
      neg := new Int512();
      neg.SubAssign(this);
    }

    /** Number of bits of the magnitude; the minimum needs all 512. */
    method BitSize() returns (size: nat)
      requires Valid()
      ensures size == BitLength(Abs(Value()))
    {
      hide Pow2, Val, BitLength, Wrap, BitXor;
      SignBit(value[..]);
      var p: Int512;
      if IsNegative() {
        p := Negate();
        NegateSigned(Unsigned());
        SignBit(p.value[..]);
        if p.IsNegative() {
          MinimumLength(p.Unsigned());
          return 512;
        }
      } else {
        p := new Int512.Copy(this);
      }
      assert p.Unsigned() == Abs(Value());
      if p.value[7] != 0 {
        TopWord(p.value[..], 7);
        return BitLength(p.value[7]) + 7 * 64;
      }
      var result: int := 512 - 63;
      var idx := 6;
      while idx >= 0
        invariant -1 <= idx <= 6
        invariant result == 64 * (idx + 1) + 1
        invariant forall k :: idx < k < 8 ==> p.value[k] == 0
      {
        result := result - 64;
        if p.value[idx] != 0 {
          TopWord(p.value[..], idx);
          LeadingZeros(p.value[idx]);
          return BitXor(64 - BitLength(p.value[idx]), 0x3F) + result;
        }
        idx := idx - 1;
      }
      NoBits(p.value[..]);
      return 0;
    }

    /** Read text with an optional sign. */
    method FromString(s: string) returns (r: Result<()>)
      requires Valid()
      modifies value
      ensures r == if SignedDenoted(s).Some? then Ok(()) else Err(UnexpectedToken)
      ensures r.Ok? ==> Value() == Signed(Wrap(SignedDenoted(s).value))
      ensures r.Ok? ==> (Value() == SignedDenoted(s).value <==> 0 - Pow2(511) <= SignedDenoted(s).value < Pow2(511))
    {
      hide Denoted, Wrap, Val, Pow2, Signed;
      WrapSmall(0);
      if SignedDenoted(s).Some? {
        SignedWrapExact(SignedDenoted(s).value);
      }
      var negate := false;
      var v := new Uint512();
      r := Ok(());
      if s != "" {
        if s[0] == '+' {
          r := v.FromString(s[1..]);
        } else if s[0] == '-' {
          r := v.FromString(s[1..]);
          negate := true;
        } else {
          r := v.FromString(s);
        }
      }
      if r.Err? {
        return;
      }
      forall i | 0 <= i < 8 {
        value[i] := v.value[i];
      }
      assert value[..] == v.value[..];
      assert Unsigned() == v.Value();
      if negate {
        WrapNegation(Denoted(s[1..]).value);
        var n := Negate();
        forall i | 0 <= i < 8 {
          value[i] := n.value[i];
        }
        assert value[..] == n.value[..];
        assert Unsigned() == n.Unsigned();
      }
    }

    /** Print with a minus sign for negative numbers. */
    method ToString(base: int, introducer: bool, upper: bool) returns (r: Result<string>)
      requires Valid()
      ensures r == if Value() == 0 then Ok("0")
                   else if ValidBase(base) then Ok(SignedText(Value(), base, introducer, upper))
                   else Err(ConversionUnavailable)
      ensures r.Ok? ==> IsSignedNumeral(r.value, Value(), base, introducer, upper)
    {
      hide Wrap, Val, Pow2, IsSignedNumeral, IsNumeral;
      ZeroText(base, introducer, upper);
      if ValidBase(base) {
        SignedTextIsNumeral(Value(), base, introducer, upper);
      }
      SignBit(value[..]);
      NegateSigned(Unsigned());
      var v := ToUnsigned();
      var result := "";
      if IsNegative() {
        result := result + "-";
        v := v.Negate();
      }
      var t := v.ToString(base, introducer, upper);
      assert "" + "-" == "-";
      if t.Err? {
        return t;
      }
      assert "" + t.value == t.value;
      return Ok(result + t.value);
    }
  }

  /** The top bit of the high word is the sign. */
  lemma SignBit(s: seq<Word>)
    requires |s| == 8
    ensures SignedWord(s[7]) < 0 <==> Val(s) >= Pow2(511)
    ensures Val(s) < Pow2(512)
  {
    hide Val, Pow2;
    assert s[..8] == s;
    ValBound(s);
    ValPrefix(s, 7);
    ValBound(s[..7]);
    Pow2Sizes();
    Pow2Add(448, 63);
    EvenPower(63);
    TopHalf(Val(s[..7]), s[7], Pow2(448), Pow2(63));
  }

  lemma TopHalf(low: nat, w: nat, p: nat, h: nat)
    requires low < p
    ensures w >= h <==> low + p * w >= p * h
  {
    if w >= h {
      MulMono(h, w, p);
    } else {
      MulMono(w + 1, h, p);
      MulDist(w, 1, p);
    }
  }

  /** Different high words decide the order of the signed numbers. */
  lemma HighWordOrder(a: seq<Word>, b: seq<Word>)
    requires |a| == 8 && |b| == 8 && a[7] != b[7]
    requires Val(a) < Pow2(512) && Val(b) < Pow2(512)
    ensures SignedWord(a[7]) > SignedWord(b[7]) <==> Signed(Val(a)) > Signed(Val(b))
    ensures Signed(Val(a)) != Signed(Val(b))
  {
    hide Val, Pow2;
    SignBit(a);
    SignBit(b);
    assert a[8..] == b[8..];
    if a[7] < b[7] {
      ValOrder(a, b, 7);
    } else {
      ValOrder(b, a, 7);
    }
  }

  lemma MinimumLength(v: nat)
    requires Pow2(511) <= v < Pow2(512)
    ensures BitLength(v) == 512
  {
    BitLengthUnique(v, 512);
  }

  lemma LeadingZeros(w: Word)
    requires w > 0
    ensures 0 < BitLength(w) <= 64
    ensures BitXor(64 - BitLength(w), 0x3F) == BitLength(w) - 1
  {
    hide Pow2, BitLength, BitXor;
    Pow2Sizes();
    BitLengthFits(w, 64);
    BitLengthBounds(w);
    PowSquare(3, 8);
    XorLowMask(64 - BitLength(w), 6);
  }

  lemma NoBits(s: seq<Word>)
    requires forall k :: 0 <= k < |s| ==> s[k] == 0
    ensures Val(s) == 0 && BitLength(0) == 0
  {
    ValZeros(s);
  }
}
