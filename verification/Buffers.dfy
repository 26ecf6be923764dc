/** Byte buffers: little-endian values, and the bytes of 64-bit words as they lie in memory. */
module Buffers {
  import opened Bits
  import opened Words
  import opened Sequences

  type byte = b: int | 0 <= b < 256

  /** Value of a little-endian buffer. */
  function LittleEndian(b: seq<byte>): nat {
    if |b| == 0 then 0 else b[0] + 256 * LittleEndian(b[1..])
  }

  /** The k low bytes of a number, least significant first. */
  function LowBytes(v: nat, k: nat): (b: seq<byte>)
    ensures |b| == k
  {
    if k == 0 then [] else [v % 256] + LowBytes(v / 256, k - 1)
  }

  lemma NextByte(k: nat)
    requires k > 0
    ensures Pow2(8 * k) == 256 * Pow2(8 * (k - 1))
  {
    Pow2Sizes();
    Pow2Add(8, 8 * (k - 1));
  }

  lemma {:induction false} LittleEndianBound(b: seq<byte>)
    ensures LittleEndian(b) < Pow2(8 * |b|)
  {
    if |b| > 0 {
      LittleEndianBound(b[1..]);
      NextByte(|b|);
    }
  }

  lemma {:induction false} LowBytesOfBuffer(b: seq<byte>)
    ensures LowBytes(LittleEndian(b), |b|) == b
  {
    if |b| > 0 {
      var rest := LittleEndian(b[1..]);
      DivModUnique(LittleEndian(b), rest, b[0], 256);
      LowBytesOfBuffer(b[1..]);
    }
  }

  lemma {:induction false} BufferOfLowBytes(v: nat, k: nat)
    ensures LittleEndian(LowBytes(v, k)) == v % Pow2(8 * k)
  {
    if k > 0 {
      BufferOfLowBytes(v / 256, k - 1);
      NextByte(k);
      LowDigitStep(v, 256, Pow2(8 * (k - 1)));
    }
  }

  lemma LowDigitStep(v: nat, b: nat, p: nat)
    requires b > 0 && p > 0
    ensures b * p > 0 && v % (b * p) == v % b + b * (v / b % p)
  {
    var q, r := v / b, v % b;
    DivModIdentity(v, b);
    DivModIdentity(q, p);
    MulMono(1, b, p);
    MulDist((q / p) * p, q % p, b);
    MulAssoc(q / p, p, b);
    MulMono(q % p + 1, p, b);
    MulDist(q % p, 1, b);
    DivModUnique(v, q / p, r + b * (q % p), b * p);
  }

  /** A multiple of 256^k does not show in the k low bytes. */
  lemma {:induction false} LowBytesShift(v: nat, h: nat, k: nat)
    ensures LowBytes(v + h * Pow2(8 * k), k) == LowBytes(v, k)
  {
    if k > 0 {
      NextByte(k);
      var p := Pow2(8 * (k - 1));
      MulAssoc(h, 256, p);
      assert h * Pow2(8 * k) == 256 * (h * p);
      assert (v + 256 * (h * p)) / 256 == v / 256 + h * p;
      LowBytesShift(v / 256, h, k - 1);
    }
  }

  /** Byte i counts 256^i. */
  lemma {:induction false} LowBytesAt(v: nat, k: nat, i: nat)
    requires i < k
    ensures LowBytes(v, k)[i] == v / Pow2(8 * i) % 256
  {
    if i == 0 {
      DivModUnique(v, v, 0, 1);
    } else {
      LowBytesAt(v / 256, k - 1, i - 1);
      NextByte(i);
      DivDiv(v, 256, Pow2(8 * (i - 1)));
    }
  }

  lemma {:induction false} LowBytesPrefix(v: nat, k: nat, n: nat)
    requires k <= n
    ensures LowBytes(v, n)[..k] == LowBytes(v, k)
  {
    if k > 0 {
      LowBytesPrefix(v / 256, k - 1, n - 1);
    }
  }

  lemma {:induction false} LittleEndianAppend(a: seq<byte>, b: seq<byte>)
    ensures LittleEndian(a + b) == LittleEndian(a) + Pow2(8 * |a|) * LittleEndian(b)
  {
    if |a| == 0 {
      assert a + b == b;
    } else {
      LittleEndianAppend(a[1..], b);
      assert (a + b)[1..] == a[1..] + b;
      NextByte(|a|);
      MulAssoc(256, Pow2(8 * (|a| - 1)), LittleEndian(b));
    }
  }

  // ---- big-endian values ----

  /** Value of a big-endian byte string. */
  function BigEndian(key: seq<byte>): nat {
    if |key| == 0 then 0 else 256 * BigEndian(key[..|key| - 1]) + key[|key| - 1]
  }

  lemma BigEndianSnoc(key: seq<byte>, b: byte)
    ensures BigEndian(key + [b]) == 256 * BigEndian(key) + b
  {
    assert (key + [b])[..|key|] == key;
  }

  /** One more byte in front. */
  lemma {:induction false} BigEndianFront(b: byte, key: seq<byte>)
    ensures BigEndian([b] + key) == b * Pow2(8 * |key|) + BigEndian(key)
    decreases |key|, 0
  {
    if |key| == 0 {
      assert ([b] + key)[..0] == [];
    } else {
      assert key == key[..|key| - 1] + [key[|key| - 1]];
      FrontStep(b, key[..|key| - 1], key[|key| - 1]);
    }
  }

  lemma {:induction false} FrontStep(b: byte, init: seq<byte>, last: byte)
    ensures BigEndian([b] + (init + [last])) == b * Pow2(8 * (|init| + 1)) + BigEndian(init + [last])
    decreases |init|, 1
  {
    hide Pow2, BigEndian;
    BigEndianFront(b, init);
    Reassociate([b], init, [last]);
    BigEndianSnoc([b] + init, last);
    BigEndianSnoc(init, last);
    NextByte(|init| + 1);
    MulAssoc(b, 256, Pow2(8 * |init|));
  }

  lemma {:induction false} BigEndianBound(key: seq<byte>)
    ensures BigEndian(key) < Pow2(8 * |key|)
  {
    if |key| > 0 {
      BigEndianBound(key[..|key| - 1]);
      NextByte(|key|);
    }
  }

  function Fill(n: nat, b: byte): (s: seq<byte>)
    ensures |s| == n && forall i :: 0 <= i < n ==> s[i] == b
  {
    seq(n, _ => b)
  }

  lemma {:induction false} ZeroFill(n: nat)
    ensures LittleEndian(Fill(n, 0)) == 0
  {
    if n > 0 {
      ZeroFill(n - 1);
      assert Fill(n, 0)[1..] == Fill(n - 1, 0);
    }
  }

  lemma {:induction false} OnesFill(n: nat)
    ensures LittleEndian(Fill(n, 255)) == Pow2(8 * n) - 1
  {
    if n > 0 {
      OnesFill(n - 1);
      assert Fill(n, 255)[1..] == Fill(n - 1, 255);
      NextByte(n);
    }
  }

  // ---- words in memory ----

  /** The memory image of words on a little-endian machine. */
  function Image(words: seq<Word>): (b: seq<byte>)
    ensures |b| == 8 * |words|
  {
    if |words| == 0 then [] else LowBytes(words[0], 8) + Image(words[1..])
  }

  lemma {:induction false} ImageIsLowBytes(words: seq<Word>)
    ensures Image(words) == LowBytes(Val(words), 8 * |words|)
  {
    if |words| > 0 {
      ImageIsLowBytes(words[1..]);
      Pow2Sizes();
      assert Val(words) == words[0] + Pow2(64) * Val(words[1..]);
      hide Pow2, Val, LowBytes;
      LowBytesJoin(words[0], Val(words[1..]), 8, 8 * (|words| - 1));
    }
  }

  lemma {:induction false} LowBytesJoin(v: nat, h: nat, k: nat, n: nat)
    requires v < Pow2(8 * k)
    ensures LowBytes(v + Pow2(8 * k) * h, k + n) == LowBytes(v, k) + LowBytes(h, n)
  {
    if k > 0 {
      var x := MulNat(Pow2(8 * (k - 1)), h);
      NextPlace(k, h);
      JoinStep(v, x, k, n);
      hide LowBytes, Pow2;
      assert v / 256 < Pow2(8 * (k - 1));
      LowBytesJoin(v / 256, h, k - 1, n);
      Reassociate([v % 256], LowBytes(v / 256, k - 1), LowBytes(h, n));
    } else {
      assert LowBytes(v + Pow2(0) * h, n) == LowBytes(h, n);
    }
  }

  function MulNat(a: nat, b: nat): (p: nat)
    ensures p == a * b
  {
    MulMono(0, a, b);
    a * b
  }

  lemma JoinStep(v: nat, x: nat, k: nat, n: nat)
    requires k > 0
    ensures LowBytes(v + 256 * x, k + n) == [v % 256] + LowBytes(v / 256 + x, k - 1 + n)
    ensures LowBytes(v, k) == [v % 256] + LowBytes(v / 256, k - 1)
  {
    FirstByte(v, x, k + n);
  }

  lemma NextPlace(k: nat, h: nat)
    requires k > 0
    ensures Pow2(8 * k) == 256 * Pow2(8 * (k - 1))
    ensures Pow2(8 * k) * h == 256 * (Pow2(8 * (k - 1)) * h)
  {
    NextByte(k);
    MulAssoc(256, Pow2(8 * (k - 1)), h);
  }

  lemma FirstByte(v: nat, x: nat, n: nat)
    requires n > 0
    ensures LowBytes(v + 256 * x, n) == [v % 256] + LowBytes(v / 256 + x, n - 1)
  {
    assert (v + 256 * x) / 256 == v / 256 + x;
  }

  /** The word that eight bytes of memory hold. */
  function LoadWord(b: seq<byte>): (w: Word)
    requires |b| == 8
  {
    (b[0] as int) + 0x100 * (b[1] as int) + 0x1_0000 * (b[2] as int) + 0x100_0000 * (b[3] as int)
    + 0x1_0000_0000 * (b[4] as int) + 0x100_0000_0000 * (b[5] as int)
    + 0x1_0000_0000_0000 * (b[6] as int) + 0x100_0000_0000_0000 * (b[7] as int)
  }

  lemma LoadWordValue(b: seq<byte>)
    requires |b| == 8
    ensures LoadWord(b) == LittleEndian(b)
  {
    assert LittleEndian(b[8..]) == 0;
    assert LittleEndian(b[7..]) == b[7];
    assert LittleEndian(b[6..]) == b[6] + 256 * LittleEndian(b[7..]) by { assert b[6..][1..] == b[7..]; }
    assert LittleEndian(b[5..]) == b[5] + 256 * LittleEndian(b[6..]) by { assert b[5..][1..] == b[6..]; }
    assert LittleEndian(b[4..]) == b[4] + 256 * LittleEndian(b[5..]) by { assert b[4..][1..] == b[5..]; }
    assert LittleEndian(b[3..]) == b[3] + 256 * LittleEndian(b[4..]) by { assert b[3..][1..] == b[4..]; }
    assert LittleEndian(b[2..]) == b[2] + 256 * LittleEndian(b[3..]) by { assert b[2..][1..] == b[3..]; }
    assert LittleEndian(b[1..]) == b[1] + 256 * LittleEndian(b[2..]) by { assert b[1..][1..] == b[2..]; }
  }

  /** Words loaded from consecutive bytes of memory. */
  function Load(b: seq<byte>): (words: seq<Word>)
    requires |b| % 8 == 0
    ensures |words| == |b| / 8
  {
    if |b| == 0 then [] else [LoadWord(b[..8])] + Load(b[8..])
  }

  lemma {:induction false} LoadValue(b: seq<byte>)
    requires |b| % 8 == 0
    ensures Val(Load(b)) == LittleEndian(b)
  {
    if |b| > 0 {
      LoadWordValue(b[..8]);
      LoadValue(b[8..]);
      assert b == b[..8] + b[8..];
      LittleEndianAppend(b[..8], b[8..]);
      Pow2Sizes();
    }
  }

  /** memcpy */
  method CopyInto(buf: array<byte>, at: nat, src: seq<byte>)
    requires at + |src| <= buf.Length
    modifies buf
    ensures buf[..] == Overlaid(old(buf[..]), at, src)
  {
    for k := 0 to |src|
      invariant forall j :: 0 <= j < buf.Length ==>
                  buf[j] == if at <= j < at + k then src[j - at] else old(buf[j])
    {
      buf[at + k] := src[k];
    }
  }

  /** memmove: the bytes may overlap. */
  method MoveWithin(buf: array<byte>, dst: nat, src: nat, n: nat)
    requires dst + n <= buf.Length && src + n <= buf.Length
    modifies buf
    ensures buf[..] == old(buf[..])[..dst] + old(buf[..])[src..src + n] + old(buf[..])[dst + n..]
  {
    forall k | 0 <= k < n {
      buf[dst + k] := buf[src + k];
    }
  }
}
