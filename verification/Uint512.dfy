/** The 512-bit unsigned integer: eight 64-bit words updated in place. */
module BigUnsigned {
  import opened BigArithmetic
  import opened Bits
  import opened Numerals
  import opened Results
  import opened Sequences
  import opened Words

  /** dst += src over eight words, the carry rippling up; dst and src may be the same buffer. */
  method Add512(dst: array<Word>, src: array<Word>)
    requires dst.Length == 8 && src.Length == 8
    modifies dst
    ensures Val(dst[..]) == Wrap(old(Val(dst[..])) + old(Val(src[..])))
  {
    ghost var d, s := dst[..], src[..];
    RippleStart(dst[..0]);
    assert Val(d[..0]) == 0 && Val(s[..0]) == 0;
    hide Val, Pow2, Wrap, Summed;
    var carry: nat := 0;
    for i := 0 to 8
      invariant carry <= 1
      invariant forall k :: i <= k < 8 ==> dst[k] == d[k] && src[k] == s[k]
      invariant Summed(d, s, dst[..i], carry)
    {
      var sum := dst[i] as int + src[i] as int + carry;
      ghost var low, c := dst[..i], carry;
      carry := if sum >= TWO_64 then 1 else 0;
      dst[i] := sum - carry * TWO_64;
      SumStep(d, s, low, c, dst[i], carry);
      assert dst[..i + 1] == low + [dst[i]];
    }
    assert dst[..8] == dst[..];
    SumEnd(d, s, dst[..], carry);
  }

  /** dst -= src over eight words, the borrow rippling up; dst and src may be the same buffer. */
  method Sub512(dst: array<Word>, src: array<Word>)
    requires dst.Length == 8 && src.Length == 8
    modifies dst
    ensures Val(dst[..]) == Wrap(old(Val(dst[..])) - old(Val(src[..])))
  {
    ghost var d, s := dst[..], src[..];
    RippleStart(dst[..0]);
    assert Val(d[..0]) == 0 && Val(s[..0]) == 0;
    hide Val, Pow2, Wrap, Subtracted;
    var borrow: nat := 0;
    for i := 0 to 8
      invariant borrow <= 1
      invariant forall k :: i <= k < 8 ==> dst[k] == d[k] && src[k] == s[k]
      invariant Subtracted(d, s, dst[..i], borrow)
    {
      var diff := dst[i] as int - src[i] as int - borrow;
      ghost var low, b := dst[..i], borrow;
      borrow := if diff < 0 then 1 else 0;
      dst[i] := diff + borrow * TWO_64;
      DifferenceStep(d, s, low, b, dst[i], borrow);
      assert dst[..i + 1] == low + [dst[i]];
    }
    assert dst[..8] == dst[..];
    DifferenceEnd(d, s, dst[..], borrow);
  }

  class Uint512 {
    const value: array<Word>

    ghost predicate Valid() {
      value.Length == 8
    }

    ghost function Value(): (v: nat)
      requires Valid()
      reads value
      ensures v < Pow2(512)
    {
      ValBound(value[..]);
      Val(value[..])
    }

    /** Two numbers never share their words unless they are the same number. */
    ghost predicate Apart(other: Uint512) {
      Valid() && other.Valid() && (this == other || value != other.value)
    }

    constructor ()
      ensures Valid() && fresh(value) && Value() == 0
    {
      value := new Word[8](_ => 0);
      new;
      ValZeros(value[..]);
    }

    constructor From64(w: Word)
      ensures Valid() && fresh(value) && Value() == w
    {
      value := new Word[8](i => if i == 0 then w else 0);
      new;
      ValZeros(value[1..]);
      assert value[..][1..] == value[1..];
    }

    /** A number copied from memory. */
    constructor FromWords(words: seq<Word>)
      requires |words| == 8
      ensures Valid() && fresh(value) && value[..] == words && Value() == Val(words)
    {
      value := new Word[8](i requires 0 <= i < 8 => words[i]);
      new;
      assert value[..] == words;
    }

    constructor Copy(rhs: Uint512)
      requires rhs.Valid()
      ensures Valid() && fresh(value) && Value() == rhs.Value() && value[..] == rhs.value[..]
    {
      value := new Word[8](i requires 0 <= i < 8 reads rhs.value => rhs.value[i]);
      new;
      assert value[..] == rhs.value[..];
    }

    method Assign(rhs: Uint512)
      requires Apart(rhs)
      modifies value
      ensures Value() == old(rhs.Value())
    {
      forall i | 0 <= i < 8 {
        value[i] := rhs.value[i];
      }
      assert value[..] == old(rhs.value[..]);
    }

    method Zero()
      requires Valid()
      modifies value
      ensures Value() == 0
    {
      forall i | 0 <= i < 8 {
        value[i] := 0;
      }
      ValZeros(value[..]);
    }

    method IsZero() returns (z: bool)
      requires Valid()
      ensures z <==> Value() == 0
    {
      ValIsZero(value[..]);
      z := value[0] == 0 && value[1] == 0 && value[2] == 0 && value[3] == 0
        && value[4] == 0 && value[5] == 0 && value[6] == 0 && value[7] == 0;
    }

    /** Number of significant bits, found from the highest non-zero word. */
    method BitSize() returns (size: nat)
      requires Valid()
      ensures size == BitLength(Value())
    {
      size := 512;
      var idx := 7;
      while idx >= 0
        invariant -1 <= idx <= 7
        invariant size == 64 * (idx + 1)
        invariant forall k :: idx < k < 8 ==> value[k] == 0
      {
        size := size - 64;
        if value[idx] != 0 {
          TopWord(value[..], idx);
          return BitLength(value[idx]) + size;
        }
        idx := idx - 1;
      }
      ValZeros(value[..]);
      return 0;
    }

    method Compare(rhs: Uint512) returns (c: int)
      requires Valid() && rhs.Valid()
      ensures Value() < rhs.Value() ==> c == -1
      ensures Value() == rhs.Value() ==> c == 0
      ensures Value() > rhs.Value() ==> c == 1
    {
      var idx := 7;
      while idx >= 0
        invariant -1 <= idx <= 7
        invariant forall k :: idx < k < 8 ==> value[k] == rhs.value[k]
      {
        if value[idx] != rhs.value[idx] {
          assert value[..][idx + 1..] == rhs.value[..][idx + 1..];
          if value[idx] > rhs.value[idx] {
            ValOrder(rhs.value[..], value[..], idx);
            return 1;
          }
          ValOrder(value[..], rhs.value[..], idx);
          return -1;
        }
        idx := idx - 1;
      }
      assert value[..] == rhs.value[..];
      return 0;
    }

    method AddAssign(rhs: Uint512)
      requires Apart(rhs)
      modifies value
      ensures Value() == Wrap(old(Value()) + old(rhs.Value()))
    {
      Add512(value, rhs.value);
    }

    method SubAssign(rhs: Uint512)
      requires Apart(rhs)
      modifies value
      ensures Value() == Wrap(old(Value()) - old(rhs.Value()))
    {
      Sub512(value, rhs.value);
    }

    /** Unary minus: the two's complement. */
    method Negate() returns (neg: Uint512)
      requires Valid()
      ensures neg.Valid() && fresh(neg) && fresh(neg.value)
      ensures neg.Value() == Wrap(0 - Value())
    {
      neg := new Uint512();
      neg.SubAssign(this);
    }

    /** Logical shift left: the whole-word move, then the bits carried from word to word. */
    method Lsl(count: nat)
      requires Valid()
      modifies value
      ensures Value() == Wrap(old(Value()) * Pow2(count))
    {
      hide Wrap, Pow2, Val;
      ghost var before := value[..];
      if count >= 512 {
        Zero();
        ShiftedOut(Val(before), count);
        return;
      }
      if count == 0 {
        NoShift(before);
        return;
      }
      var move, shift := count / 64, count % 64;
      if move > 0 {
        forall i | move <= i < 8 {
          value[i] := value[i - move];
        }
        forall i | 0 <= i < move {
          value[i] := 0;
        }
      }
      WordMoveLeft(before, value[..], move);
      if shift != 0 {
        CarryBitsUp(move, shift);
      }
      ShiftLeftTwice(Val(before), 64 * move, shift);
    }

    /** The bit loop of the left shift, over the words from `start` up. */
    method CarryBitsUp(start: nat, shift: nat)
      requires Valid() && start <= 8 && 0 < shift < 64
      requires forall k :: 0 <= k < start ==> value[k] == 0
      modifies value
      ensures Value() == Wrap(old(Value()) * Pow2(shift))
    {
      ghost var mid := value[..];
      var move, remainder := start, 64 - shift;
      var extra: Word := 0;
      ShiftedPrefixZeros(mid, move, shift);
      assert mid[..8] == mid && Val(mid) * Pow2(shift) == ShiftedPrefix(mid, 8, shift);
      hide Pow2, Val, Wrap, Rippled, ShiftedPrefix, BitOr;
      while move < 8
        invariant start <= move <= 8
        invariant extra < Pow2(shift)
        invariant forall k :: move <= k < 8 ==> value[k] == mid[k]
        invariant Rippled(value[..move], extra, ShiftedPrefix(mid, move, shift))
      {
        ghost var low, e, w := value[..move], extra, value[move];
        var next := ShiftRight64(value[move], remainder);
        JoinLow(value[move], extra, shift);
        value[move] := BitOr(ShiftLeft64(value[move], shift), extra);
        extra := next;
        RippleStep(low, e, ShiftedPrefix(mid, move, shift), value[move], extra, w * Pow2(shift));
        ShiftedPrefixStep(mid, move, shift);
        assert value[..move + 1] == low + [value[move]];
        move := move + 1;
      }
      assert value[..8] == value[..];
      RippleEnd(value[..], extra, ShiftedPrefix(mid, 8, shift));
    }

    /** Logical shift right: the whole-word move, then the bits carried down. */
    method Lsr(count: nat)
      requires Valid()
      modifies value
      ensures Value() == old(Value()) / Pow2(count)
    {
      hide Pow2, Val;
      NoShift(value[..]);
      ghost var before := value[..];
      if count >= 512 {
        Zero();
        ShiftedOutRight(before, count);
        return;
      }
      if count == 0 {
        return;
      }
      var move, shift := count / 64, count % 64;
      var pos := 8 - move;
      if move > 0 {
        forall i | 0 <= i < pos {
          value[i] := value[i + move];
        }
        forall i | pos <= i < 8 {
          value[i] := 0;
        }
      }
      WordMoveRight(before, value[..], move);
      if shift != 0 {
        CarryBitsDown(pos, shift);
      }
      ShiftTwice(Val(before), 64 * move, shift);
    }

    /** The bit loop of the right shift, over the words below `top`. */
    method CarryBitsDown(top: nat, shift: nat)
      requires Valid() && top <= 8 && 0 < shift < 64
      requires forall k :: top <= k < 8 ==> value[k] == 0
      modifies value
      ensures Value() == old(Value()) / Pow2(shift)
    {
      ghost var mid := value[..];
      var pos, remainder := top, 64 - shift;
      var extra: Word := 0;
      ghost var dropped: nat := 0;
      DrainStart(mid[pos..], value[pos..], shift);
      hide Pow2, Val, Drained, BitOr;
      while pos > 0
        invariant 0 <= pos <= 8
        invariant dropped < Pow2(shift) && extra == dropped * Pow2(remainder)
        invariant forall k :: 0 <= k < pos ==> value[k] == mid[k]
        invariant Drained(mid[pos..], value[pos..], shift, dropped)
      {
        ghost var high, d := value[pos..], dropped;
        pos := pos - 1;
        var next := ShiftLeft64(value[pos], remainder);
        JoinHigh(value[pos], d, shift);
        dropped := value[pos] % Pow2(shift);
        value[pos] := BitOr(ShiftRight64(value[pos], shift), extra);
        extra := next;
        DrainStep(mid[pos], mid[pos + 1..], value[pos], high, shift, d, dropped);
        assert value[pos..] == [value[pos]] + high;
        assert mid[pos..] == [mid[pos]] + mid[pos + 1..];
      }
      assert value[0..] == value[..] && mid[0..] == mid;
      DrainEnd(mid, value[..], shift, dropped);
    }

    /**
     * Shift-and-subtract long division: this becomes the quotient. Fails, changing nothing, when
     * the divisor is zero.
     */
    method Div(rhs: Uint512, remainder: Uint512) returns (r: Result<()>)
      requires Apart(rhs) && Apart(remainder) && rhs.Apart(remainder)
      requires remainder != this && remainder != rhs
      modifies value, remainder.value
      ensures r == if old(rhs.Value()) == 0 then Err(LogicError) else Ok(())
      ensures r.Ok? ==> old(Value()) == Value() * old(rhs.Value()) + remainder.Value()
      ensures r.Ok? ==> remainder.Value() < old(rhs.Value())
      ensures r.Err? ==> Value() == old(Value()) && remainder.Value() == old(remainder.Value())
      ensures this != rhs ==> rhs.Value() == old(rhs.Value())
    {
      hide Value, Val, Pow2, BitLength, Wrap, Scaled, LongDivision;
      var z := rhs.IsZero();
      if z {
        return Err(LogicError);
      }
      var c := Compare(rhs);
      if c == -1 {
        remainder.Assign(this);
        Zero();
        return Ok(());
      }
      var one := new Uint512.From64(1);
      if c == 0 {
        remainder.Zero();
        Assign(one);
        return Ok(());
      }
      ghost var dividend, d := Value(), rhs.Value();
      var lhsSize := BitSize();
      var rhsSize := rhs.BitSize();
      BitLengthMono(d, dividend);
      var gap: nat := lhsSize - rhsSize;
      remainder.Assign(this);
      Zero();
      var divisor := new Uint512.Copy(rhs);
      divisor.Lsl(gap);
      AlignedDivisor(dividend, d, gap);
      LongDivisionExact(dividend, d, gap);
      DivideLoop(divisor, remainder, one, gap + 1);
      return Ok(());
    }

    /** The loop of the long division, one quotient bit a turn. */
    method DivideLoop(divisor: Uint512, remainder: Uint512, one: Uint512, turns: nat)
      requires Valid() && divisor.Valid() && remainder.Valid() && one.Valid()
      requires value != divisor.value && value != remainder.value && value != one.value
      requires divisor.value != remainder.value && one.value != remainder.value && one.value != divisor.value
      requires one.Value() == 1
      modifies value, remainder.value, divisor.value
      ensures (Value(), remainder.Value())
        == LongDivision(old(Value()), old(remainder.Value()), old(divisor.Value()), turns)
    {
      hide Value, Val, Pow2, Wrap;
      var gap := turns;
      while gap > 0
        invariant one.Value() == 1
        invariant LongDivision(Value(), remainder.Value(), divisor.Value(), gap)
          == LongDivision(old(Value()), old(remainder.Value()), old(divisor.Value()), turns)
      {
        OneBit(Value());
        OneBit(divisor.Value());
        Lsl(1);
        var c := remainder.Compare(divisor);
        if c >= 0 {
          remainder.SubAssign(divisor);
          AddAssign(one);
        }
        divisor.Lsr(1);
        gap := gap - 1;
      }
    }

    /** Shift-and-add multiplication; the factor shrinks to zero. */
    method MulAssign(rhs: Uint512)
      requires Apart(rhs)
      modifies value
      ensures Value() == Wrap(old(Value()) * old(rhs.Value()))
    {
      hide Value, Val, Pow2, Wrap, BitAnd, ShiftAdd;
      var lhs := new Uint512.Copy(this);
      var factor := new Uint512.Copy(rhs);
      LowBit(factor);
      if factor.LowBits(1) == 0 {
        Zero();
      }
      ShiftAddWhole(Value(), lhs.Value(), factor.Value());
      ShiftAndAdd(lhs, factor);
    }

    /** The loop of the multiplication: the factor shrinks to zero. */
    method ShiftAndAdd(lhs: Uint512, factor: Uint512)
      requires Valid() && lhs.Valid() && factor.Valid()
      requires value != lhs.value && value != factor.value && lhs.value != factor.value
      modifies value, lhs.value, factor.value
      ensures Value() == ShiftAdd(old(Value()), old(lhs.Value()), old(factor.Value()))
    {
      hide Value, Val, Pow2, Wrap, BitAnd;
      while true
        invariant ShiftAdd(Value(), lhs.Value(), factor.Value())
          == ShiftAdd(old(Value()), old(lhs.Value()), old(factor.Value()))
        decreases factor.Value()
      {
        OneBit(factor.Value());
        OneBit(lhs.Value());
        factor.Lsr(1);
        var z := factor.IsZero();
        if z {
          break;
        }
        lhs.Lsl(1);
        LowBit(factor);
        if factor.LowBits(1) != 0 {
          AddAssign(lhs);
        }
      }
    }

    method MulWord(w: Word)
      requires Valid()
      modifies value
      ensures Value() == Wrap(old(Value()) * w)
    {
      var b := new Uint512.From64(w);
      MulAssign(b);
    }

    method AddWord(w: Word)
      requires Valid()
      modifies value
      ensures Value() == Wrap(old(Value()) + w)
    {
      var b := new Uint512.From64(w);
      AddAssign(b);
    }

    /**
     * Read text. A `0o` prefix has no `return` after its loop, so the text is read again as a
     * decimal number and the letter is refused.
     */
    method FromString(s: string) returns (r: Result<()>)
      requires Valid()
      modifies value
      ensures r == if Denoted(s).Some? then Ok(()) else Err(UnexpectedToken)
      ensures r.Ok? ==> Value() == Wrap(Denoted(s).value)
      ensures r.Ok? ==> (Value() == Denoted(s).value <==> Denoted(s).value < Pow2(512))
    {
      if Denoted(s).Some? {
        WrapExact(Denoted(s).value);
      }
      hide Value, Val, Pow2, Wrap, ParseDigits;
      Zero();
      if s == "" {
        return Ok(());
      }
      var octal := false;
      if s[0] == '0' && |s| >= 3 {
        if s[1] == 'b' || s[1] == 'B' {
          r := ReadDigits(s[2..], 2);
          return;
        }
        if s[1] == 'o' || s[1] == 'O' {
          r := ReadDigits(s[2..], 8);
          if r.Err? {
            return;
          }
          octal := true;
        }
        if s[1] == 'x' || s[1] == 'X' {
          r := ReadDigits(s[2..], 16);
          return;
        }
      }
      if octal {
        assert !AllDigits(s, 10) by { assert DigitOf(s[1]) >= 10; }
      }
      r := ReadDigits(s, 10);
    }

    /** The digit loop shared by the bases: by two, by eight and by sixteen it shifts, by ten it multiplies. */
    method ReadDigits(s: string, base: nat) returns (r: Result<()>)
      requires Valid() && base in {2, 8, 10, 16}
      modifies value
      ensures r == if AllDigits(s, base) then Ok(()) else Err(UnexpectedToken)
      ensures r.Ok? && old(Value()) == 0 ==> Value() == Wrap(ParseDigits(s, base))
    {
      ParseNothing(base);
      hide Value, Val, Pow2, Wrap, ParseDigits;
      ghost var start := Value();
      for idx := 0 to |s|
        invariant AllDigits(s[..idx], base)
        invariant start == 0 ==> Value() == Wrap(ParseDigits(s[..idx], base))
      {
        var d := DigitOf(s[idx]);
        if d >= base {
          return Err(UnexpectedToken);
        }
        ghost var before := Value();
        if base == 10 {
          MulWord(10);
        } else {
          BaseShift(base, before);
          Lsl(if base == 2 then 1 else if base == 8 then 3 else 4);
        }
        AddWord(d);
        assert s[..idx + 1] == s[..idx] + [s[idx]];
        ParseSnoc(s[..idx], s[idx], base);
        WrapHorner(ParseDigits(s[..idx], base), base, d);
      }
      assert s[..|s|] == s;
      return Ok(());
    }

    /**
     * Print in any base from 2 to 36, with an optional base prefix. Zero prints as the bare digit
     * whatever the base, before the base is even looked at.
     */
    method ToString(base: int, introducer: bool, upper: bool) returns (r: Result<string>)
      requires Valid()
      ensures r == if Value() == 0 then Ok("0")
                   else if ValidBase(base) then Ok(Text(Value(), base, introducer, upper))
                   else Err(ConversionUnavailable)
      ensures r.Ok? ==> IsNumeral(r.value, Value(), base, introducer, upper)
    {
      hide Val, Pow2, Digits, IsNumeral;
      ZeroNumeral(base, introducer, upper);
      if ValidBase(base) {
        TextIsNumeral(Value(), base, introducer, upper);
      }
      if value[1] == 0 && value[2] == 0 && value[3] == 0 && value[4] == 0 && value[5] == 0 && value[6] == 0
         && value[7] == 0 {
        SingleWord(value[..]);
        if value[0] == 0 {
          return Ok("0");
        }
        if base == 8 || base == 10 || base == 16 {
          return Ok(StreamText(value[0], base, introducer, upper));
        }
      } else {
        SomeWord(value[..]);
      }
      var v := new Uint512.Copy(this);
      var intro, result := "", "";
      match base {
        case 2 =>
          result := v.TakeMasked(2, 1, upper);
          intro := if upper then "0B" else "0b";
        case 8 =>
          result := v.TakeMasked(8, 3, upper);
          intro := "0";
        case 16 =>
          result := v.TakeMasked(16, 4, upper);
          intro := if upper then "0X" else "0x";
        case _ =>
          if base < 2 || base > 36 {
            return Err(ConversionUnavailable);
          }
          result := v.TakeDivided(base, upper);
      }
      result := Reversed(result);
      assert "" + result == result;
      return Ok(if introducer then intro + result else result);
    }

    /** Take digits off by masking and shifting, least significant first, until nothing is left. */
    method TakeMasked(base: nat, shift: nat, upper: bool) returns (out: string)
      requires Valid() && (base, shift) in {(2, 1), (8, 3), (16, 4)}
      modifies value
      ensures Reversed(out) == Digits(old(Value()), base, upper)
    {
      hide Value, Val, Pow2, BitAnd;
      out := "";
      Pow2Sizes();
      ghost var whole := Digits(Value(), base, upper);
      EmitStart(whole, Value(), base, upper);
      var z := IsZero();
      while !z
        invariant z <==> Value() == 0
        invariant Emitted(whole, Value(), base, upper, out)
        decreases Value()
      {
        LowMask(this, shift);
        EmitDigit(whole, Value(), base, upper, out);
        DivDecreases(Value(), base);
        out := out + [DigitChar(LowBits(base - 1), upper)];
        Lsr(shift);
        z := IsZero();
      }
      EmitEnd(whole, base, upper, out);
    }

    /** Take digits off by long division, least significant first, until nothing is left. */
    method TakeDivided(base: nat, upper: bool) returns (out: string)
      requires Valid() && ValidBase(base)
      modifies value
      ensures Reversed(out) == Digits(old(Value()), base, upper)
    {
      hide Value, Val, Pow2;
      out := "";
      var remainder := new Uint512();
      var divisor := new Uint512.From64(base);
      ghost var whole := Digits(Value(), base, upper);
      EmitStart(whole, Value(), base, upper);
      var z := IsZero();
      while !z
        invariant remainder.Valid() && divisor.Valid() && fresh(remainder.value) && fresh(divisor.value)
        invariant divisor.value != remainder.value && divisor != remainder
        invariant divisor.value != value && remainder.value != value
        invariant divisor.Value() == base
        invariant z <==> Value() == 0
        invariant Emitted(whole, Value(), base, upper, out)
        decreases Value()
      {
        ghost var v := Value();
        EmitDigit(whole, v, base, upper, out);
        DivDecreases(v, base);
        var done := Div(divisor, remainder);
        DivModUnique(v, Value(), remainder.Value(), base);
        SmallWord(remainder);
        out := out + [DigitChar(remainder.value[0], upper)];
        z := IsZero();
      }
      EmitEnd(whole, base, upper, out);
    }

    /** The masked low bits of the lowest word. */
    function LowBits(mask: nat): nat
      requires Valid()
      reads value
    {
      BitAnd(value[0], mask)
    }
  }

  lemma LowBit(n: Uint512)
    requires n.Valid()
    ensures n.LowBits(1) == n.Value() % 2
  {
    LowMask(n, 1);
    Pow2Sizes();
  }

  /** The low bits of the lowest word are the low bits of the number. */
  lemma LowMask(n: Uint512, k: nat)
    requires n.Valid() && k <= 64
    ensures n.LowBits(Pow2(k) - 1) == n.Value() % Pow2(k)
  {
    AndLowMask(n.value[0], k);
    var s := n.value[..];
    Pow2Sizes();
    Pow2Add(64 - k, k);
    LowDigitMod(s[0], Val(s[1..]), Pow2(64 - k), Pow2(k));
  }

  lemma ParseNothing(base: nat)
    ensures ParseDigits("", base) == 0 && Wrap(0) == 0
    ensures forall s: string :: s[..0] == ""
  {
  }

  lemma BaseShift(base: nat, x: nat)
    requires base in {2, 8, 16}
    ensures x * Pow2(if base == 2 then 1 else if base == 8 then 3 else 4) == x * base
  {
    Pow2Sizes();
  }

  lemma EmitStart(whole: string, v: nat, base: nat, upper: bool)
    requires ValidBase(base) && whole == Digits(v, base, upper)
    ensures Emitted(whole, v, base, upper, "")
  {
  }

  lemma EmitEnd(whole: string, base: nat, upper: bool, out: string)
    requires ValidBase(base) && Emitted(whole, 0, base, upper, out)
    ensures whole == Reversed(out)
  {
  }

  /** What the standard stream prints for one word with `showbase`, `uppercase` and `setbase` as asked. */
  function StreamText(w: Word, base: int, showBase: bool, upper: bool): string
    requires base == 8 || base == 10 || base == 16
  {
    (if showBase then Introducer(base, upper) else "") + Digits(w, base, upper)
  }

  lemma SingleWord(s: seq<Word>)
    requires |s| == 8 && forall k :: 1 <= k < 8 ==> s[k] == 0
    ensures Val(s) == s[0]
  {
    ValZeros(s[1..]);
  }

  lemma SomeWord(s: seq<Word>)
    requires exists k :: 0 <= k < |s| && s[k] != 0
    ensures Val(s) > 0
  {
    ValIsZero(s);
  }

  lemma SmallWord(n: Uint512)
    requires n.Valid() && n.Value() < TWO_64
    ensures n.value[0] == n.Value()
  {
  }
}
