/** Arithmetic of 512-bit numbers on their values: wrapping, ripples, shifts and the two slow loops. */
module BigArithmetic {
  import opened Bits
  import opened Words

  // ---- wrapping ----

  /** The 512-bit number that remains of x once carries and borrows have left the top word. */
  ghost function Wrap(x: int): (w: nat)
    ensures w < Pow2(512)
    decreases x < 0, if x < 0 then 0 - x else x
  {
    if x < 0 then Wrap(x + Pow2(512))
    else if x >= Pow2(512) then Wrap(x - Pow2(512))
    else x
  }

  lemma {:induction false} WrapIsMod(x: int)
    ensures Wrap(x) == x % Pow2(512)
    decreases x < 0, if x < 0 then 0 - x else x
  {
    hide Pow2;
    var m := Pow2(512);
    if x < 0 {
      WrapIsMod(x + m);
      ModShift(x, 1, m);
    } else if x >= m {
      WrapIsMod(x - m);
      ModShift(x - m, 1, m);
    } else {
      ModSmall(x, m);
    }
  }

  /** Wrapping leaves exactly the 512-bit numbers alone. */
  lemma WrapExact(x: int)
    ensures Wrap(x) == x <==> 0 <= x < Pow2(512)
  {
    hide Pow2;
  }

  /** One borrow of 2^512 is lost. */
  lemma WrapBorrow(m: nat)
    requires m < Pow2(512)
    ensures Wrap(m - Pow2(512)) == m
  {
    hide Pow2;
  }

  /** Negating what is left of a number is what is left of its negation. */
  lemma WrapNegation(x: nat)
    ensures Wrap(0 - Wrap(x)) == Wrap(0 - x)
  {
    hide Wrap, Pow2;
    var k := WrapParts(x);
    assert 0 - Wrap(x) == k * Pow2(512) + (0 - x);
    WrapShift(0 - x, k);
  }

  /** Whole multiples of 2^512 are lost. */
  lemma WrapShift(x: int, k: int)
    ensures Wrap(k * Pow2(512) + x) == Wrap(x)
  {
    hide Wrap, Pow2;
    WrapIsMod(x);
    WrapIsMod(k * Pow2(512) + x);
    ModShift(x, k, Pow2(512));
  }

  /** Horner's rule survives wrapping at every step. */
  lemma WrapHorner(p: nat, b: nat, d: nat)
    ensures Wrap(Wrap(Wrap(p) * b) + d) == Wrap(p * b + d)
  {
    hide Wrap, Pow2;
    var k := WrapParts(p);
    var j := WrapParts(Wrap(p) * b);
    HornerAlgebra(p, Wrap(p), k, b, d, Pow2(512));
    WrapShift(Wrap(p) * b + d, k * b);
    WrapShift(Wrap(Wrap(p) * b) + d, j);
  }

  lemma HornerAlgebra(p: nat, w: nat, k: nat, b: nat, d: nat, m: nat)
    requires p == k * m + w
    ensures p * b + d == (k * b) * m + (w * b + d)
  {
    MulDist(k * m, w, b);
    MulAssoc(k, m, b);
    MulAssoc(k, b, m);
  }

  // ---- ripples ----

  /** The words so far, with the carry out of them, amount to `total`; a borrow is a negative carry. */
  ghost predicate Rippled(low: seq<Word>, carry: int, total: int) {
    Val(low) + carry * Pow2(64 * |low|) == total
  }

  /** Nothing has been produced yet. */
  lemma RippleStart(low: seq<Word>)
    requires |low| == 0
    ensures Rippled(low, 0, 0)
  {
  }

  /** One more word: what the word and the new carry amount to is the old carry plus x. */
  lemma RippleStep(low: seq<Word>, carry: int, total: int, w: Word, carry': int, x: int)
    requires Rippled(low, carry, total) && w + carry' * TWO_64 == x + carry
    ensures Rippled(low + [w], carry', total + Pow2(64 * |low|) * x)
  {
    hide Val, Pow2;
    ValSnoc(low, w);
    NextPlace(|low|);
    CarryStep(Val(low), total, carry, w, x, carry', Pow2(64 * |low|), TWO_64);
  }

  lemma NextPlace(i: nat)
    ensures Pow2(64 * (i + 1)) == TWO_64 * Pow2(64 * i)
  {
    Pow2Sizes();
    Pow2Add(64, 64 * i);
  }

  /** After the eighth word the carry is dropped: the words hold the total modulo 2^512. */
  lemma RippleEnd(s: seq<Word>, carry: int, total: int)
    requires |s| == 8 && Rippled(s, carry, total)
    ensures Val(s) == Wrap(total)
  {
    hide Val, Pow2, Wrap;
    ValBound(s);
    WrapShift(Val(s), carry);
    WrapSmall(Val(s));
  }

  lemma WrapSmall(x: nat)
    requires x < Pow2(512)
    ensures Wrap(x) == x
  {
  }

  lemma PlaceSum(p: int, x: int, y: int)
    ensures p * (x + y) == p * x + p * y
  {
  }

  /** The low words of d + s, and the carry out of them. */
  ghost predicate Summed(d: seq<Word>, s: seq<Word>, low: seq<Word>, carry: int)
    requires |low| <= |d| == |s|
  {
    Rippled(low, carry, Val(d[..|low|]) + Val(s[..|low|]))
  }

  lemma SumStep(d: seq<Word>, s: seq<Word>, low: seq<Word>, c: int, w: Word, carry: int)
    requires |low| < |d| == |s| && Summed(d, s, low, c)
    requires w + carry * TWO_64 == d[|low|] + s[|low|] + c
    ensures Summed(d, s, low + [w], carry)
  {
    hide Val, Pow2, Rippled;
    var i := |low|;
    ValPrefix(d, i);
    ValPrefix(s, i);
    PlaceSum(Pow2(64 * i), d[i], s[i]);
    RippleStep(low, c, Val(d[..i]) + Val(s[..i]), w, carry, d[i] as int + s[i] as int);
  }

  lemma SumEnd(d: seq<Word>, s: seq<Word>, low: seq<Word>, carry: int)
    requires |low| == |d| == |s| == 8 && Summed(d, s, low, carry)
    ensures Val(low) == Wrap(Val(d) + Val(s))
  {
    hide Val, Rippled, Wrap;
    assert d[..8] == d && s[..8] == s;
    RippleEnd(low, carry, Val(d) + Val(s));
  }

  /** The low words of d - s, and the borrow out of them. */
  ghost predicate Subtracted(d: seq<Word>, s: seq<Word>, low: seq<Word>, borrow: int)
    requires |low| <= |d| == |s|
  {
    Rippled(low, 0 - borrow, Val(d[..|low|]) - Val(s[..|low|]))
  }

  lemma DifferenceStep(d: seq<Word>, s: seq<Word>, low: seq<Word>, b: int, w: Word, borrow: int)
    requires |low| < |d| == |s| && Subtracted(d, s, low, b)
    requires w - borrow * TWO_64 == d[|low|] - s[|low|] - b
    ensures Subtracted(d, s, low + [w], borrow)
  {
    hide Val, Pow2, Rippled;
    var i := |low|;
    ValPrefix(d, i);
    ValPrefix(s, i);
    PlaceSum(Pow2(64 * i), d[i] as int - s[i] as int, s[i]);
    RippleStep(low, 0 - b, Val(d[..i]) - Val(s[..i]), w, 0 - borrow, d[i] as int - s[i] as int);
  }

  lemma DifferenceEnd(d: seq<Word>, s: seq<Word>, low: seq<Word>, borrow: int)
    requires |low| == |d| == |s| == 8 && Subtracted(d, s, low, borrow)
    ensures Val(low) == Wrap(Val(d) - Val(s))
  {
    hide Val, Rippled, Wrap;
    assert d[..8] == d && s[..8] == s;
    RippleEnd(low, 0 - borrow, Val(d) - Val(s));
  }

  /** The words below i, times 2^shift. */
  ghost function ShiftedPrefix(s: seq<Word>, i: nat, shift: nat): nat
    requires i <= |s|
  {
    Val(s[..i]) * Pow2(shift)
  }

  lemma ShiftedPrefixStep(s: seq<Word>, i: nat, shift: nat)
    requires i < |s|
    ensures ShiftedPrefix(s, i + 1, shift) == ShiftedPrefix(s, i, shift) + Pow2(64 * i) * (s[i] * Pow2(shift))
  {
    hide Val, Pow2;
    ValPrefix(s, i);
    MulDist(Val(s[..i]), Pow2(64 * i) * s[i], Pow2(shift));
    MulAssoc(Pow2(64 * i), s[i], Pow2(shift));
  }

  lemma ShiftedPrefixZeros(s: seq<Word>, i: nat, shift: nat)
    requires i <= |s| && forall k :: 0 <= k < i ==> s[k] == 0
    ensures ShiftedPrefix(s, i, shift) == 0 && Rippled(s[..i], 0, 0)
  {
    ValZeros(s[..i]);
  }

  /** The words from i up, and the bits a right shift has dropped below them. */
  ghost predicate Drained(before: seq<Word>, after: seq<Word>, shift: nat, dropped: nat) {
    Val(before) == Val(after) * Pow2(shift) + dropped
  }

  lemma DrainStart(before: seq<Word>, after: seq<Word>, shift: nat)
    requires forall k :: 0 <= k < |before| ==> before[k] == 0
    requires forall k :: 0 <= k < |after| ==> after[k] == 0
    ensures Drained(before, after, shift, 0)
  {
    ValZeros(before);
    ValZeros(after);
  }

  lemma DrainEnd(before: seq<Word>, after: seq<Word>, shift: nat, dropped: nat)
    requires Drained(before, after, shift, dropped) && dropped < Pow2(shift)
    ensures Val(after) == Val(before) / Pow2(shift)
  {
    hide Val, Pow2;
    DivModUnique(Val(before), Val(after), dropped, Pow2(shift));
  }

  // ---- one word of a shift ----

  function ShiftLeft64(w: Word, n: nat): Word {
    (w * Pow2(n)) % TWO_64
  }

  function ShiftRight64(w: Word, n: nat): Word {
    ShiftRightBound(w, n);
    w / Pow2(n)
  }

  lemma ShiftRightBound(w: Word, n: nat)
    ensures 0 <= w / Pow2(n) < TWO_64
  {
    hide Pow2;
    DivBound(w, Pow2(n));
  }

  /** The two halves a left shift by n makes of a word. */
  lemma SplitLeft(w: Word, n: nat)
    requires n <= 64
    ensures w * Pow2(n) == ShiftRight64(w, 64 - n) * TWO_64 + ShiftLeft64(w, n)
    ensures ShiftLeft64(w, n) == (w % Pow2(64 - n)) * Pow2(n)
    ensures ShiftLeft64(w, n) + Pow2(n) <= TWO_64
    ensures ShiftRight64(w, 64 - n) < Pow2(n)
  {
    hide Pow2;
    Pow2Sizes();
    Pow2Add(64 - n, n);
    SplitProduct(w, Pow2(64 - n), Pow2(n));
  }

  lemma SplitProduct(w: nat, p: nat, q: nat)
    requires p > 0 && q > 0 && w < p * q
    ensures w * q == (w / p) * (p * q) + (w % p) * q
    ensures (w * q) % (p * q) == (w % p) * q
    ensures (w % p) * q + q <= p * q
    ensures w / p < q
  {
    var h, l := w / p, w % p;
    assert w == h * p + l;
    MulDist(h * p, l, q);
    MulAssoc(h, p, q);
    MulDist(l, 1, q);
    MulMono(l + 1, p, q);
    DivModUnique(w * q, h, l * q, p * q);
    if h >= q {
      MulMono(q, h, p);
    }
  }

  lemma OneBit(x: nat)
    ensures x * Pow2(1) == x * 2 && x / Pow2(1) == x / 2
  {
    Pow2Sizes();
  }

  lemma BitLengthMono(a: nat, b: nat)
    requires a <= b
    ensures BitLength(a) <= BitLength(b)
  {
    BitLengthBounds(b);
    BitLengthFits(a, BitLength(b));
  }

  // ---- long division ----

  /** The division loop on values: one quotient bit a turn, every word operation wrapping. */
  ghost function LongDivision(q: nat, rem: nat, divisor: nat, turns: nat): (nat, nat)
    decreases turns
  {
    if turns == 0 then (q, rem)
    else
      var q2 := Wrap(q * 2);
      if rem < divisor then LongDivision(q2, rem, divisor / 2, turns - 1)
      else LongDivision(Wrap(q2 + 1), Wrap(rem - divisor), divisor / 2, turns - 1)
  }

  /** The loop never wraps and ends with the quotient and the remainder. */
  lemma LongDivisionExact(dividend: nat, d: nat, gap: nat)
    requires 0 < d && dividend < Pow2(512) && dividend < Scaled(d, gap + 1)
    ensures var (q, rem) := LongDivision(0, dividend, Scaled(d, gap), gap + 1);
            dividend == q * d + rem && rem < d
  {
    LongDivisionInvariant(dividend, 0, dividend, d, Scaled(d, gap), gap + 1);
  }

  ghost predicate Divides(dividend: nat, q: nat, d: nat, rem: nat) {
    dividend == q * d + rem && rem < d
  }

  lemma {:induction false} LongDivisionInvariant(dividend: nat, q: nat, rem: nat, d: nat, m: nat, turns: nat)
    requires turns > 0 ==> m == Scaled(d, turns - 1)
    requires Divides(dividend, q, if turns > 0 then 2 * m else d, rem)
    requires dividend < Pow2(512)
    ensures var (q', rem') := LongDivision(q, rem, m, turns);
            Divides(dividend, q', d, rem')
    decreases turns
  {
    hide Scaled, Pow2, Wrap, Divides;
    if turns > 0 {
      ScaledHalf(d, m, turns);
      DivisionTurn(dividend, q, m, rem);
      if rem < m {
        LongDivisionInvariant(dividend, 2 * q, rem, d, m / 2, turns - 1);
      } else {
        LongDivisionInvariant(dividend, 2 * q + 1, rem - m, d, m / 2, turns - 1);
      }
    }
  }

  /** One turn: a quotient bit is found and nothing wraps. */
  lemma DivisionTurn(dividend: nat, q: nat, m: nat, rem: nat)
    requires Divides(dividend, q, 2 * m, rem) && dividend < Pow2(512)
    ensures Wrap(q * 2) == 2 * q
    ensures rem < m ==> Divides(dividend, 2 * q, m, rem)
    ensures rem >= m ==> Wrap(2 * q + 1) == 2 * q + 1 && Wrap(rem - m) == rem - m
    ensures rem >= m ==> Divides(dividend, 2 * q + 1, m, rem - m)
  {
    hide Pow2, Wrap;
    QuotientFits(dividend, q, m, rem);
    WrapSmall(2 * q);
    if rem < m {
      DivideStep(dividend, q, m, rem, 2 * q, rem);
    } else {
      WrapSmall(2 * q + 1);
      WrapSmall(rem - m);
      DivideStep(dividend, q, m, rem, 2 * q + 1, rem - m);
    }
  }

  lemma ScaledHalf(d: nat, m: nat, turns: nat)
    requires turns > 0 && m == Scaled(d, turns - 1)
    ensures if turns == 1 then m == d else m == 2 * (m / 2) && m / 2 == Scaled(d, turns - 2)
  {
    if turns > 1 {
      var half := Scaled(d, turns - 2);
      assert m == 2 * half;
      hide *;
      DivModUnique(m, half, 0, 2);
    }
  }

  /** The divisor shifted left by `gap`. */
  ghost function Scaled(d: nat, gap: nat): nat {
    if gap == 0 then d else 2 * Scaled(d, gap - 1)
  }

  lemma {:induction false} ScaledIsShift(d: nat, gap: nat)
    ensures Scaled(d, gap) == d * Pow2(gap)
  {
    if gap > 0 {
      ScaledIsShift(d, gap - 1);
      MulAssoc(d, 2, Pow2(gap - 1));
    }
  }

  /** Aligning the top bits loses nothing of the divisor and brings it within a factor of two of the dividend. */
  lemma AlignedDivisor(dividend: nat, d: nat, gap: nat)
    requires 0 < d <= dividend < Pow2(512) && gap == BitLength(dividend) - BitLength(d)
    ensures Wrap(d * Pow2(gap)) == Scaled(d, gap)
    ensures dividend < Scaled(d, gap + 1)
  {
    hide Pow2;
    var n, k := BitLength(dividend), BitLength(d);
    BitLengthBounds(d);
    BitLengthBounds(dividend);
    BitLengthFits(dividend, 512);
    Pow2Mono(n, 512);
    Pow2Add(k, gap);
    Pow2Add(k - 1, gap + 1);
    AlignBounds(d, Pow2(k), Pow2(k - 1), Pow2(gap), Pow2(gap + 1));
    ScaledIsShift(d, gap);
    ScaledIsShift(d, gap + 1);
  }

  lemma AlignBounds(d: nat, above: nat, below: nat, p: nat, p2: nat)
    requires below <= d < above && p > 0
    ensures d * p < above * p && below * p2 <= d * p2
  {
    MulMono(d + 1, above, p);
    MulDist(d, 1, p);
    MulMono(below, d, p2);
  }

  lemma DivideStep(dividend: nat, q: nat, m: nat, rem: nat, q': nat, rem': nat)
    requires dividend == q * (2 * m) + rem && rem < 2 * m
    requires rem < m ==> q' == 2 * q && rem' == rem
    requires rem >= m ==> q' == 2 * q + 1 && rem' == rem - m
    ensures dividend == q' * m + rem' && rem' < m
  {
    MulAssoc(q, 2, m);
    MulDist(2 * q, 1, m);
  }

  lemma QuotientFits(dividend: nat, q: nat, m: nat, rem: nat)
    requires dividend == q * (2 * m) + rem && rem < 2 * m && dividend < Pow2(512)
    ensures q * 2 + 1 < Pow2(512) && (rem >= m ==> rem - m < Pow2(512))
  {
    hide Pow2;
    MulMono(1, m, q);
    EvenPower(511);
  }

  // ---- multiplication ----

  /** The multiplication loop on values, every word operation wrapping. */
  ghost function ShiftAdd(v: nat, l: nat, f: nat): nat
    decreases f
  {
    if f / 2 == 0 then v
    else
      var l' := Wrap(l * 2);
      ShiftAdd(if f / 2 % 2 == 1 then Wrap(v + l') else v, l', f / 2)
  }

  /** The loop adds to v the product of l with f, less f's lowest bit. */
  lemma {:induction false} ShiftAddProduct(v: nat, l: nat, f: nat)
    requires v < Pow2(512)
    ensures ShiftAdd(v, l, f) == Wrap(v + l * (f - f % 2))
    decreases f
  {
    if f / 2 == 0 {
      NothingLeft(l, f);
    } else {
      var f', l' := f / 2, Wrap(l * 2);
      var v' := if f' % 2 == 1 then Wrap(v + l') else v;
      ShiftAddProduct(v', l', f');
      ProductTurn(v, v', l, l', f, f');
    }
  }

  lemma ProductTurn(v: nat, v': nat, l: nat, l': nat, f: nat, f': nat)
    requires f' == f / 2 && l' == Wrap(l * 2) && v' == if f' % 2 == 1 then Wrap(v + l') else v
    ensures Wrap(v + l * (f - f % 2)) == Wrap(v' + l' * (f' - f' % 2))
  {
    hide Wrap, Pow2;
    var lc := WrapParts(l * 2);
    var c := WrapParts(v + l');
    var lost := MulStep(v, v', l, l', lc, f, f', if f' % 2 == 1 then c else 0, Pow2(512));
    WrapShift(v' + l' * (f' - f' % 2), lost);
  }

  lemma WrapParts(x: nat) returns (k: nat)
    ensures x == k * Pow2(512) + Wrap(x)
  {
    hide Wrap, Pow2;
    k := x / Pow2(512);
    WrapIsMod(x);
    DivModIdentity(x, Pow2(512));
  }

  lemma ShiftAddWhole(v: nat, x: nat, y: nat)
    requires v == if y % 2 == 0 then 0 else x
    requires x < Pow2(512)
    ensures ShiftAdd(v, x, y) == Wrap(x * y)
  {
    hide *;
    DropLowBit(x, y, y % 2);
    ShiftAddProduct(v, x, y);
  }

  lemma NothingLeft(l: nat, f: nat)
    requires f / 2 == 0
    ensures l * (f - f % 2) == 0
  {
  }

  lemma MulStep(v: nat, v': nat, l: nat, l': nat, lc: nat, f: nat, f': nat, c: nat, m: nat) returns (lost: nat)
    requires f' == f / 2 && l * 2 == lc * m + l'
    requires if f' % 2 == 0 then v' == v && c == 0 else v + l' == c * m + v'
    ensures v + l * (f - f % 2) == lost * m + (v' + l' * (f' - f' % 2))
  {
    var b := f' % 2;
    lost := lc * f' + c;
    DoubledFactor(l, l', lc, f', m);
    DropLowBit(l', f', b);
    MulDist(lc * f', c, m);
    assert f - f % 2 == 2 * f';
  }

  lemma DropLowBit(l: nat, f: nat, b: nat)
    requires b == f % 2
    ensures l * (f - b) == l * f - (if b == 0 then 0 else l)
  {
  }

  lemma DoubledFactor(l: nat, l': nat, lc: nat, f: nat, m: nat)
    requires l * 2 == lc * m + l'
    ensures l * (2 * f) == lc * f * m + l' * f
  {
    MulAssoc(l, 2, f);
    MulDist(lc * m, l', f);
    MulAssoc(lc, m, f);
    MulAssoc(lc, f, m);
  }

  lemma LowDigitMod(w: nat, v: nat, h: nat, p: nat)
    requires p > 0 && h * p == TWO_64
    ensures (w + TWO_64 * v) % p == w % p
  {
    MulAssoc(v, h, p);
    ModShift(w, v * h, p);
  }

  // ---- whole shifts ----

  /** The highest non-zero word fixes the bit length of the whole number. */
  lemma TopWord(s: seq<Word>, idx: nat)
    requires idx < |s| && s[idx] != 0
    requires forall k :: idx < k < |s| ==> s[k] == 0
    ensures BitLength(Val(s)) == BitLength(s[idx]) + 64 * idx
  {
    hide Val, Pow2, BitLength;
    ZerosAbove(s, idx + 1);
    ValPrefix(s, idx);
    ValBound(s[..idx]);
    TopDigit(Val(s[..idx]), s[idx], 64 * idx);
  }

  lemma ZerosAbove(s: seq<Word>, i: nat)
    requires i <= |s| && forall k :: i <= k < |s| ==> s[k] == 0
    ensures Val(s) == Val(s[..i])
  {
    ValZeros(s[i..]);
    hide Val, Pow2;
    ValSplit(s, i);
  }

  lemma TopDigit(low: nat, w: nat, k: nat)
    requires low < Pow2(k) && w > 0
    ensures BitLength(low + Pow2(k) * w) == BitLength(w) + k
  {
    hide Pow2;
    BitLengthBounds(w);
    var n, p := BitLength(w), Pow2(k);
    Pow2Add(n, k);
    Pow2Add(n - 1, k);
    MulMono(Pow2(n - 1), w, p);
    MulMono(w + 1, Pow2(n), p);
    MulDist(w, 1, p);
    BitLengthUnique(low + p * w, n + k);
  }

  lemma NoShift(s: seq<Word>)
    requires |s| == 8
    ensures Val(s) * Pow2(0) == Val(s) == Val(s) / Pow2(0)
    ensures Wrap(Val(s)) == Val(s)
  {
    ValBound(s);
    WrapSmall(Val(s));
  }

  lemma ShiftedOutRight(s: seq<Word>, count: nat)
    requires |s| == 8 && count >= 512
    ensures Val(s) / Pow2(count) == 0
  {
    ValBound(s);
    Pow2Mono(512, count);
    DivModUnique(Val(s), 0, Val(s), Pow2(count));
  }

  lemma ShiftTwice(v: nat, a: nat, b: nat)
    ensures v / Pow2(a) / Pow2(b) == v / Pow2(a + b)
  {
    DivDiv(v, Pow2(a), Pow2(b));
    Pow2Add(a, b);
  }

  /** Shifting 512 places or more leaves nothing. */
  lemma ShiftedOut(v: nat, count: nat)
    requires count >= 512
    ensures Wrap(v * Pow2(count)) == 0
  {
    hide Pow2;
    Pow2Add(count - 512, 512);
    MulAssoc(v, Pow2(count - 512), Pow2(512));
    WrapShift(0, v * Pow2(count - 512));
  }

  lemma ShiftLeftTwice(v: nat, a: nat, b: nat)
    ensures Wrap(Wrap(v * Pow2(a)) * Pow2(b)) == Wrap(v * Pow2(a + b))
    ensures b == 0 ==> Wrap(v * Pow2(a)) == Wrap(v * Pow2(a + b))
  {
    hide Pow2;
    WrapIsMod(v * Pow2(a));
    WrapIsMod(Wrap(v * Pow2(a)) * Pow2(b));
    WrapIsMod(v * Pow2(a + b));
    ModMul(v * Pow2(a), Pow2(b), Pow2(512));
    Pow2Add(a, b);
    MulAssoc(v, Pow2(a), Pow2(b));
  }

  lemma WordMoveLeft(before: seq<Word>, after: seq<Word>, move: nat)
    requires |before| == 8 && |after| == 8 && move < 8
    requires forall i :: 0 <= i < move ==> after[i] == 0
    requires forall i :: move <= i < 8 ==> after[i] == before[i - move]
    ensures Val(after) == Wrap(Val(before) * Pow2(64 * move))
  {
    hide Pow2;
    hide Wrap, Pow2, Val;
    WrapIsMod(Val(before) * Pow2(64 * move));
    assert Val(after) == Pow2(64 * move) * Val(before[..8 - move]) by {
      ValSplit(after, move);
      ValZeros(after[..move]);
      assert after[move..] == before[..8 - move];
    }
    KeepLow(before, 8 - move, move);
  }

  lemma KeepLow(s: seq<Word>, i: nat, move: nat)
    requires i + move == |s|
    ensures Pow2(64 * move) * Val(s[..i]) == (Val(s) * Pow2(64 * move)) % Pow2(64 * |s|)
  {
    hide Pow2;
    ValSplit(s, i);
    ValBound(s[..i]);
    Pow2Add(64 * i, 64 * move);
    HighPartLost(Val(s[..i]), Val(s[i..]), Pow2(64 * i), Pow2(64 * move));
  }

  lemma HighPartLost(low: nat, high: nat, q: nat, p: nat)
    requires p > 0 && q > 0 && low < q
    ensures q * p > 0 && ((low + q * high) * p) % (q * p) == p * low
  {
    MulDist(low, q * high, p);
    MulAssoc(high, q, p);
    MulMono(low + 1, q, p);
    MulDist(low, 1, p);
    DivModUnique((low + q * high) * p, high, p * low, q * p);
  }

  lemma WordMoveRight(before: seq<Word>, after: seq<Word>, move: nat)
    requires |before| == 8 && |after| == 8 && move < 8
    requires forall i :: 0 <= i < 8 - move ==> after[i] == before[i + move]
    requires forall i :: 8 - move <= i < 8 ==> after[i] == 0
    ensures Val(after) == Val(before) / Pow2(64 * move)
  {
    hide Val, Pow2;
    assert Val(after) == Val(before[move..]) by {
      ValSplit(after, 8 - move);
      ValZeros(after[8 - move..]);
      assert after[..8 - move] == before[move..];
    }
    DropLow(before, move);
  }

  lemma DropLow(s: seq<Word>, i: nat)
    requires i <= |s|
    ensures Val(s[i..]) == Val(s) / Pow2(64 * i)
  {
    hide Pow2, Val;
    ValSplit(s, i);
    ValBound(s[..i]);
    LowPartLost(Val(s[..i]), Val(s[i..]), Pow2(64 * i));
  }

  lemma LowPartLost(low: nat, high: nat, p: nat)
    requires low < p
    ensures (low + p * high) / p == high
  {
    DivModUnique(low + p * high, high, low, p);
  }

  /** A word shifted left makes room for the carried bits, which the `or` adds. */
  lemma JoinLow(w: Word, extra: nat, shift: nat)
    requires shift <= 64 && extra < Pow2(shift)
    ensures 0 <= BitOr(ShiftLeft64(w, shift), extra) < TWO_64
    ensures BitOr(ShiftLeft64(w, shift), extra) + ShiftRight64(w, 64 - shift) * TWO_64 == w * Pow2(shift) + extra
    ensures ShiftRight64(w, 64 - shift) < Pow2(shift)
  {
    hide Pow2, BitOr;
    SplitLeft(w, shift);
    OrDisjoint(w % Pow2(64 - shift), extra, shift);
  }

  /** A word shifted right makes room for the bits dropped by the word above it. */
  lemma JoinHigh(w: Word, d: nat, shift: nat)
    requires shift <= 64 && d < Pow2(shift)
    ensures BitOr(ShiftRight64(w, shift), d * Pow2(64 - shift)) == d * Pow2(64 - shift) + w / Pow2(shift)
    ensures 0 <= BitOr(ShiftRight64(w, shift), d * Pow2(64 - shift)) < TWO_64
    ensures ShiftLeft64(w, 64 - shift) == (w % Pow2(shift)) * Pow2(64 - shift)
  {
    hide Pow2, BitOr;
    SplitLeft(w, 64 - shift);
    OrDisjoint(d, ShiftRight64(w, shift), 64 - shift);
    OrCommutes(d * Pow2(64 - shift), ShiftRight64(w, shift));
    Pow2Sizes();
    Pow2Add(shift, 64 - shift);
    DigitFits(d, ShiftRight64(w, shift), Pow2(shift), Pow2(64 - shift));
  }

  lemma DigitFits(d: nat, r: nat, q: nat, p: nat)
    requires d < q && r < p
    ensures d * p + r < q * p
  {
    MulMono(d + 1, q, p);
    MulDist(d, 1, p);
  }

  lemma DrainStep(m: Word, ms: seq<Word>, w: Word, high: seq<Word>, shift: nat, d: nat, d': nat)
    requires shift <= 64
    requires w == d * Pow2(64 - shift) + m / Pow2(shift) && d' == m % Pow2(shift)
    requires Drained(ms, high, shift, d)
    ensures Drained([m] + ms, [w] + high, shift, d')
  {
    Pow2Sizes();
    Pow2Add(64 - shift, shift);
    assert ([m] + ms)[1..] == ms && ([w] + high)[1..] == high;
    LsrAlgebra(m, Val(ms), Val(high), d, Pow2(64 - shift), Pow2(shift));
  }

  lemma LsrAlgebra(m: nat, v: nat, h: nat, d: nat, r: nat, s: nat)
    requires s > 0 && r * s == TWO_64 && v == h * s + d
    ensures m + TWO_64 * v == (d * r + m / s + TWO_64 * h) * s + m % s
  {
    MulDist(d * r + m / s, TWO_64 * h, s);
    MulDist(d * r, m / s, s);
    MulAssoc(d, r, s);
    MulAssoc(TWO_64, h, s);
  }
}
