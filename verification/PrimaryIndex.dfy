/** `block_primary_index`: one reference per value of the last bits of a key. */
module PrimaryIndexes {
  import opened Bits
  import opened Buffers
  import opened Sequences

  /** Only the last n bytes count for the last 8 n bits. */
  lemma {:induction false} BigEndianTail(key: seq<byte>, i: nat)
    requires i <= |key|
    ensures BigEndian(key) == BigEndian(key[..i]) * Pow2(8 * (|key| - i)) + BigEndian(key[i..])
    decreases |key| - i
  {
    if i == |key| {
      assert key[..i] == key && key[i..] == [];
      assert Pow2(0) == 1;
    } else {
      var n := |key| - i;
      BigEndianTail(key, i + 1);
      assert key[i..] == [key[i]] + key[i + 1..] && key[..i + 1][..i] == key[..i];
      BigEndianFront(key[i], key[i + 1..]);
      NextByte(n);
      TailStep(BigEndian(key[..i]), key[i], Pow2(8 * (n - 1)));
    }
  }

  lemma TailStep(v: nat, b: nat, p: nat)
    ensures (256 * v + b) * p == v * (256 * p) + b * p
  {
  }

  /** How many bits of a key select a reference: those of the page size in references, at most 32. */
  function IndexBits(pageSize: nat): (bits: nat)
    requires pageSize >= 8
    ensures pageSize < 0x8_0000_0000 ==> Pow2(bits) * 8 <= pageSize < 2 * (Pow2(bits) * 8)
    ensures pageSize >= 0x8_0000_0000 ==> bits == 32
  {
    PageLength(pageSize);
    var bits := BitLength(pageSize) - BitLength(8);
    if bits <= 32 then bits else 32
  }

  lemma PageLength(pageSize: nat)
    requires pageSize >= 8
    ensures BitLength(8) == 4 && BitLength(pageSize) >= 4
    ensures Pow2(BitLength(pageSize) - 4) * 8 <= pageSize < 2 * (Pow2(BitLength(pageSize) - 4) * 8)
    ensures pageSize < 0x8_0000_0000 <==> BitLength(pageSize) - 4 < 32
  {
    assert Pow2(3) == 8 && Pow2(4) == 16;
    BitLengthUnique(8, 4);
    BitLengthBounds(pageSize);
    var n := BitLength(pageSize);
    if n < 4 {
      Pow2Mono(n, 3);
    } else {
      Pow2Add(n - 4, 3);
    }
    Pow2Sizes();
    Pow2Add(32, 3);
    BitLengthFits(pageSize, 35);
  }

  lemma IndexFits(pageSize: nat)
    requires 8 <= pageSize < 0x8_0000_0000
    ensures IndexBits(pageSize) < 32 && 0 < Pow2(IndexBits(pageSize)) && Pow2(IndexBits(pageSize)) * 8 <= pageSize
  {
    hide Pow2, BitLength;
    PageLength(pageSize);
  }

  /** On a page whose size is a power of two, every reference of the page has its index. */
  lemma AllIndices(pageSize: nat, n: nat)
    requires 8 <= pageSize < 0x8_0000_0000 && pageSize == Pow2(n)
    ensures Pow2(IndexBits(pageSize)) == pageSize / 8
  {
    hide BitLength, IndexBits;
    var bits := IndexBits(pageSize);
    assert Pow2(3) == 8;
    hide Pow2;
    Pow2Add(bits, 3);
    EvenPower(bits + 3);
    if bits + 3 < n {
      Pow2Mono(bits + 4, n);
    } else if n < bits + 3 {
      Pow2Mono(n + 1, bits + 3);
      EvenPower(n);
    }
    DivModUnique(pageSize, Pow2(bits), 0, 8);
  }

  lemma WithinPage(v: nat, p: nat, pageSize: nat)
    requires 0 < p && p * 8 <= pageSize
    ensures v % p < pageSize / 8
  {
  }

  /** The mask that keeps the last `size` of 32 bits. */
  lemma MaskBits(size: nat)
    requires size < 32
    ensures TWO_32 - 1 - (TWO_32 - 1) * Pow2(size) % TWO_32 == Pow2(size) - 1
  {
    Pow2Sizes();
    Pow2Mono(size, 32);
    Pow2Mono(0, size);
    hide Pow2;
    var p := Pow2(size);
    assert (TWO_32 - 1) * p == (p - 1) * TWO_32 + (TWO_32 - p);
    DivModUnique((TWO_32 - 1) * p, p - 1, TWO_32 - p, TWO_32);
  }

  /** Bits above the mask do not count. */
  lemma LowBitsOfSum(high: nat, n: nat, low: nat, size: nat)
    requires size <= n
    ensures (high * Pow2(n) + low) % Pow2(size) == low % Pow2(size)
  {
    Pow2Add(n - size, size);
    hide Pow2;
    SumMod(high, Pow2(n - size), Pow2(size), low);
  }

  lemma SumMod(high: nat, q: nat, p: nat, low: nat)
    requires p > 0
    ensures (high * (q * p) + low) % p == low % p
  {
    var k, r := low / p, low % p;
    DivModIdentity(low, p);
    MulAssoc(high, q, p);
    MulDist(high * q, k, p);
    DivModUnique(high * (q * p) + low, high * q + k, r, p);
  }

  class PrimaryIndex {
    const pageSize: nat
    /** The references of the page; the first is the block's header. */
    const page: array<int>
    /** The reference of index 0, which is kept in the table's header. */
    var referenceZero: int

    ghost predicate Valid()
      reads this
    {
      4096 <= pageSize < 0x8_0000_0000 && page.Length == pageSize / 8
    }

    constructor (size: nat)
      requires 4096 <= size < 0x8_0000_0000
      ensures Valid() && fresh(page) && pageSize == size
      ensures forall k :: 0 <= k < page.Length ==> At(k) == 0
    {
      pageSize, page, referenceZero := size, new int[size / 8](_ => 0), 0;
    }

    /** The reference kept for index k. */
    ghost function At(k: nat): int
      reads this, page
      requires k < page.Length
    {
      if k == 0 then referenceZero else page[k]
    }

    /** The last bits of the key as a number, for keys of any length. */
    method KeyToIndex(key: seq<byte>) returns (r: nat)
      requires Valid()
      ensures r == BigEndian(key) % Pow2(IndexBits(pageSize)) < page.Length
      ensures forall n: nat :: pageSize == Pow2(n) ==> r == BigEndian(key) % (pageSize / 8)
    {
      hide Pow2, BigEndian, BitOr, BitAnd, BitLength, IndexBits;
      forall n: nat | pageSize == Pow2(n) ensures Pow2(IndexBits(pageSize)) == pageSize / 8 {
        AllIndices(pageSize, n);
      }
      var size := IndexBits(pageSize);
      IndexFits(pageSize);
      var bytes, idx := (size + 7) / 8, |key|;
      if bytes > idx {
        bytes := idx;
      }
      ghost var wanted := bytes;
      var shift, k := 0, 0;
      NoBytes(key);
      while bytes > 0
        invariant 0 <= bytes <= idx <= |key| && |key| - idx == wanted - bytes
        invariant shift == 8 * (|key| - idx) && k == BigEndian(key[idx..]) < TWO_32
      {
        bytes, idx := bytes - 1, idx - 1;
        NextKeyByte(key, idx, size);
        k := BitOr(k, key[idx] * Pow2(shift));
        shift := shift + 8;
      }
      MaskBits(size);
      AndLowMask(k, size);
      KeyBits(key, idx, size);
      WithinPage(BigEndian(key), Pow2(size), pageSize);
      var mask := (TWO_32 - 1) * Pow2(size) % TWO_32;
      r := BitAnd(k, TWO_32 - 1 - mask);
    }

    method GetTopIndex(key: seq<byte>) returns (reference: int)
      requires Valid()
      ensures BigEndian(key) % Pow2(IndexBits(pageSize)) < page.Length
      ensures reference == At(BigEndian(key) % Pow2(IndexBits(pageSize)))
    {
      var k := KeyToIndex(key);
      reference := if k == 0 then referenceZero else page[k];
    }

    /** Sets the reference of the key's index; the header and the other indices keep theirs. */
    method SetTopIndex(key: seq<byte>, offset: int)
      requires Valid()
      modifies `referenceZero, page
      ensures Valid() && page[0] == old(page[0])
      ensures forall k :: 0 <= k < page.Length ==>
                At(k) == if k == BigEndian(key) % Pow2(IndexBits(pageSize)) then offset else old(At(k))
    {
      hide Pow2, BigEndian, IndexBits;
      var k := KeyToIndex(key);
      if k == 0 {
        referenceZero := offset;
      } else {
        page[k] := offset;
      }
    }
  }

  lemma NoBytes(key: seq<byte>)
    ensures BigEndian(key[|key|..]) == 0
  {
  }

  /** The byte in front of the ones read so far. */
  lemma NextKeyByte(key: seq<byte>, i: nat, size: nat)
    requires i < |key| && 8 * (|key| - i - 1) < size < 32
    ensures var k := BigEndian(key[i + 1..]); var shift := 8 * (|key| - i - 1);
            BitOr(k, key[i] * Pow2(shift)) == BigEndian(key[i..]) < TWO_32
  {
    hide BitOr, Pow2, BigEndian;
    var k, shift := BigEndian(key[i + 1..]), 8 * (|key| - i - 1);
    assert key[i..] == [key[i]] + key[i + 1..];
    BigEndianFront(key[i], key[i + 1..]);
    BigEndianBound(key[i + 1..]);
    BigEndianBound(key[i..]);
    OrCommutes(k, key[i] * Pow2(shift));
    OrDisjoint(key[i], k, shift);
    Pow2Sizes();
    Pow2Mono(8 * (|key| - i), 32);
  }

  /** The bytes that were read hold all the bits that count. */
  lemma KeyBits(key: seq<byte>, i: nat, size: nat)
    requires i <= |key| && (i == 0 || 8 * (|key| - i) >= size)
    ensures BigEndian(key) % Pow2(size) == BigEndian(key[i..]) % Pow2(size)
  {
    hide BigEndian, Pow2;
    if i == 0 {
      assert key[0..] == key;
    } else {
      BigEndianTail(key, i);
      LowBitsOfSum(BigEndian(key[..i]), 8 * (|key| - i), BigEndian(key[i..]), size);
    }
  }
}
