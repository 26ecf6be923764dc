/**
 * `virtual_buffer`: a deque of buffers that behaves as one flat byte sequence under read, write,
 * growth, insertion, removal and shift.
 */
module VirtualBuffers {
  import opened Bits
  import opened Buffers
  import opened Results
  import opened FlatBytes
  import opened Sequences

  const CHUNK: nat := 4096

  /** A 64-bit count returned as an int. */
  function Narrow(n: nat): int {
    var w := n % TWO_32;
    if w >= TWO_32 / 2 then w - TWO_32 else w
  }

  function Min(a: nat, b: nat): nat {
    if a <= b then a else b
  }

  /** `is_data_available`, in 64-bit arithmetic. */
  predicate DataAvailable(offset: nat, size: nat, total: nat) {
    (offset + size) % TWO_64 <= total
  }

  /** How many of `size` bytes from `offset` on there are. */
  function Readable(offset: nat, size: nat, total: nat): nat {
    if offset >= total then 0 else Min(size, total - offset)
  }

  lemma ReadableIs(offset: nat, size: nat, total: nat)
    ensures offset + size <= total && size > 0 ==> Readable(offset, size, total) == size
    ensures offset <= total <= offset + size ==> Readable(offset, size, total) == total - offset
    ensures total <= offset ==> Readable(offset, size, total) == 0
  {
  }

  /** A write the growth check lets through keeps the size, unless offset + size wraps past 64 bits. */
  lemma GrowthGuard(s: seq<byte>, o: nat, x: seq<byte>)
    requires |s| < TWO_64 && o < TWO_64 && 0 < |x| < TWO_64 && DataAvailable(o, |x|, |s|)
    ensures |Written(s, o, x)| == |s| <==> o + |x| < TWO_64
  {
  }

  /** A full read the check lets through gets all its bytes, unless offset + size wraps past 64 bits. */
  lemma FullReadGuard(o: nat, size: nat, total: nat)
    requires total < TWO_64 && o < TWO_64 && 0 < size < TWO_64 && DataAvailable(o, size, total)
    ensures Readable(o, size, total) == size <==> o + size < TWO_64
  {
  }

  /**
   * One byte at the last offset there is: the check lets both calls through, the write grows the buffer
   * and the read gets nothing.
   */
  lemma WrappedExample(s: seq<byte>, b: byte)
    requires |s| < TWO_64
    ensures DataAvailable(TWO_64 - 1, 1, |s|)
    ensures |Written(s, TWO_64 - 1, [b])| == |s| + 1
    ensures Readable(TWO_64 - 1, 1, |s|) == 0
  {
    var x: seq<byte> := [b];
    GrowthGuard(s, TWO_64 - 1, x);
    assert |Written(s, TWO_64 - 1, x)| == |s| + 1;
  }

  predicate InMemory(bufs: seq<VBuf>) {
    forall i :: 0 <= i < |bufs| ==> bufs[i].block.None?
  }

  /** The count returned is the true one exactly below 2^31, and always right modulo 2^32. */
  lemma NarrowExact(n: nat)
    ensures -0x8000_0000 <= Narrow(n) < 0x8000_0000 && (n - Narrow(n)) % 0x1_0000_0000 == 0
    ensures Narrow(n) == n <==> n < 0x8000_0000
  {
    var k := n / TWO_32;
    DivModIdentity(n, TWO_32);
    DivModUnique(n - Narrow(n), if Narrow(n) < 0 then k + 1 else k, 0, TWO_32);
  }

  lemma NarrowSmall(n: nat)
    requires n < TWO_32 / 2
    ensures Narrow(n) == n
  {
  }

  lemma FlatSizes(bufs: seq<VBuf>, i: nat)
    requires AllSound(bufs) && i < |bufs|
    ensures AllSound(bufs[..i]) && AllSound(bufs[..i + 1]) && Sound(bufs[i]) && |Content(bufs[i])| == bufs[i].size
    ensures |Flat(bufs[..i + 1])| == |Flat(bufs[..i])| + bufs[i].size <= |Flat(bufs)|
  {
    hide Content, Flat, Sound, AllSound;
    FlatAround(bufs, i);
  }

  /** The next sz bytes of a read are bytes of buffer i. */
  lemma ReadMoves(bufs: seq<VBuf>, i: nat, o: nat, off: nat, count: nat, sz: nat)
    requires AllSound(bufs) && i < |bufs| && off <= o && off + sz <= bufs[i].size
    requires AllSound(bufs[..i]) && |Flat(bufs[..i])| == o - off + count
    ensures o + count + sz <= |Flat(bufs)| && Sound(bufs[i])
    ensures Flat(bufs)[o..o + count] + Content(bufs[i])[off..off + sz] == Flat(bufs)[o..o + count + sz]
  {
    hide *;
    FlatAround(bufs, i);
    SliceOf(Flat(bufs[..i]), Content(bufs[i]), Flat(bufs[i + 1..]), off, off + sz);
    SliceJoin(Flat(bufs), o, o + count, o + count + sz);
  }

  lemma FlatAll(bufs: seq<VBuf>)
    requires AllSound(bufs)
    ensures AllSound(bufs[..0]) && AllSound(bufs[..|bufs|]) && AllSound(bufs[0..]) && AllSound(bufs[|bufs|..])
    ensures Flat(bufs[..0]) == [] && Flat(bufs[..|bufs|]) == Flat(bufs) && Flat(bufs[0..]) == Flat(bufs)
    ensures Flat(bufs[|bufs|..]) == []
  {
    assert bufs[..|bufs|] == bufs && bufs[0..] == bufs;
  }

  /** buf starts with `count` bytes of s from o on; the rest of it is as in buf0. */
  ghost predicate Reading(buf: seq<byte>, buf0: seq<byte>, s: seq<byte>, o: nat, count: nat) {
    && count <= |buf0| && (count > 0 ==> o + count <= |s|)
    && buf == (if count > 0 then s[o..o + count] else []) + buf0[count..]
  }

  lemma ReadStarts(buf: seq<byte>, s: seq<byte>, o: nat)
    ensures Reading(buf, buf, s, o, 0)
  {
  }

  lemma ReadCopied(buf: seq<byte>, buf0: seq<byte>, s: seq<byte>, o: nat, count: nat, x: seq<byte>)
    requires Reading(buf, buf0, s, o, count) && count + |x| <= |buf0| && o + count + |x| <= |s|
    requires s[o..o + count] + x == s[o..o + count + |x|]
    ensures |buf| == |buf0|
    ensures Reading(buf[..count] + x + buf[count + |x|..], buf0, s, o, count + |x|)
  {
    var done := s[o..o + count];
    assert buf == done + buf0[count..];
    assert buf[..count] == done && buf[count + |x|..] == buf0[count + |x|..];
  }

  // ---- a write in progress ----

  /** The buffers before i hold what comes before and the part of x already written, the others are as they were. */
  ghost predicate Writing(bufs: seq<VBuf>, i: nat, s: seq<byte>, x: seq<byte>, o: nat, off: nat, count: nat) {
    && AllSound(bufs) && i <= |bufs| && off <= o && count < |x| && (off > 0 ==> count == 0)
    && o - off + count <= |s|
    && Flat(bufs[..i]) == s[..o - off] + x[..count]
    && Flat(bufs[i..]) == s[o - off + count..]
  }

  lemma WriteStarts(bufs: seq<VBuf>, x: seq<byte>, o: nat)
    requires AllSound(bufs) && |x| > 0
    ensures Writing(bufs, 0, Flat(bufs), x, o, o, 0)
  {
    FlatAll(bufs);
    hide Flat;
  }

  lemma WriteSkips(bufs: seq<VBuf>, i: nat, s: seq<byte>, x: seq<byte>, o: nat, off: nat, count: nat)
    requires Writing(bufs, i, s, x, o, off, count) && i < |bufs| && off >= bufs[i].size
    ensures Writing(bufs, i + 1, s, x, o, off - bufs[i].size, count)
  {
    hide Flat, Content, Sound, AllSound;
    FlatAround(bufs, i);
    PassOver(s, x, o, off, count, Flat(bufs[..i]), Content(bufs[i]), Flat(bufs[i + 1..]));
  }

  /** Buffer b with the bytes c over its data from off on. */
  function Overwritten(b: VBuf, off: nat, c: seq<byte>): (r: VBuf)
    requires Sound(b) && b.block.None? && off + |c| <= b.size
    ensures Sound(r) && r.block.None?
    ensures Content(r) == Content(b)[..off] + c + Content(b)[off + |c|..]
  {
    b.(data := b.data[..off] + c + b.data[off + |c|..])
  }

  lemma WriteMoves(bufs: seq<VBuf>, i: nat, s: seq<byte>, x: seq<byte>, o: nat, off: nat, count: nat, sz: nat)
    requires Writing(bufs, i, s, x, o, off, count) && i < |bufs| && bufs[i].block.None?
    requires off < bufs[i].size && sz == Min(|x| - count, bufs[i].size - off)
    ensures AllSound(bufs[i := Overwritten(bufs[i], off, x[count..count + sz])]) && o + count + sz <= |s|
    ensures count + sz < |x| ==>
              Writing(bufs[i := Overwritten(bufs[i], off, x[count..count + sz])], i + 1, s, x, o, 0, count + sz)
    ensures count + sz == |x| ==>
              Flat(bufs[i := Overwritten(bufs[i], off, x[count..count + sz])]) == Written(s, o, x)
  {
    hide Flat, Sound, Overwritten, Content, AllSound;
    FlatAround(bufs, i);
    var c := x[count..count + sz];
    var b := Overwritten(bufs[i], off, c);
    var bufs' := bufs[i := b];
    FlatUpdate(bufs, i, b);
    FlatAround(bufs', i);
    assert bufs'[..i] == bufs[..i] && bufs'[i + 1..] == bufs[i + 1..];
    PutOver(s, x, o, off, count, sz, Flat(bufs[..i]), Content(bufs[i]), Flat(bufs[i + 1..]));
    assert count + sz == |x| ==> x[..count + sz] == x;
  }

  /** Nothing is left to overwrite: the rest of x goes behind the end. */
  lemma WriteEnds(bufs: seq<VBuf>, s: seq<byte>, x: seq<byte>, o: nat, off: nat, count: nat)
    requires Writing(bufs, |bufs|, s, x, o, off, count)
    ensures Flat(bufs) + x[count..] == Written(s, o, x)
    ensures |Flat(bufs)| == |s|
  {
    hide Flat, AllSound;
    FlatAll(bufs);
    JoinRest(s, x, o - off, count);
    assert |s| == o - off + count;
    assert off > 0 ==> o > |s| && s[..o - off] == s;
  }

  lemma JoinRest(s: seq<byte>, x: seq<byte>, q: nat, count: nat)
    requires q <= |s| && count <= |x|
    ensures s[..q] + x[..count] + x[count..] == s[..q] + x
  {
    Reassociate(s[..q], x[..count], x[count..]);
    assert x[..count] + x[count..] == x;
  }

  // ---- a removal in progress ----

  /** Of the n bytes from o on, `gone` bytes have been removed; the buffers before i are done with. */
  ghost predicate Erasing(bufs: seq<VBuf>, i: nat, s: seq<byte>, o: nat, off: nat, gone: nat) {
    && AllSound(bufs) && i <= |bufs| && off <= o && (off > 0 ==> gone == 0)
    && o - off + gone <= |s|
    && Flat(bufs[..i]) == s[..o - off]
    && Flat(bufs[i..]) == s[o - off + gone..]
  }

  lemma EraseStarts(bufs: seq<VBuf>, o: nat)
    requires AllSound(bufs)
    ensures Erasing(bufs, 0, Flat(bufs), o, o, 0)
  {
    hide Flat;
    FlatAll(bufs);
  }

  lemma EraseSkips(bufs: seq<VBuf>, i: nat, s: seq<byte>, o: nat, off: nat, gone: nat)
    requires Erasing(bufs, i, s, o, off, gone) && i < |bufs| && off >= bufs[i].size
    ensures Erasing(bufs, i + 1, s, o, off - bufs[i].size, gone)
  {
    hide Flat, Content, Sound, AllSound;
    FlatAround(bufs, i);
    if off > 0 {
      PassOver(s, [], o, off, gone, Flat(bufs[..i]), Content(bufs[i]), Flat(bufs[i + 1..]));
    }
  }

  lemma StillSound(a: seq<VBuf>, b: seq<VBuf>)
    requires AllSound(a) && AllSound(b)
    ensures AllSound(a + b)
  {
    hide Sound;
  }

  /** Buffer i is dropped whole. */
  lemma EraseDrops(bufs: seq<VBuf>, i: nat, s: seq<byte>, o: nat, gone: nat)
    requires Erasing(bufs, i, s, o, 0, gone) && i < |bufs|
    ensures Erasing(bufs[..i] + bufs[i + 1..], i, s, o, 0, gone + bufs[i].size)
  {
    hide Flat, Content, Sound, AllSound;
    FlatAround(bufs, i);
    var bufs' := bufs[..i] + bufs[i + 1..];
    StillSound(bufs[..i], bufs[i + 1..]);
    assert bufs'[..i] == bufs[..i] && bufs'[i..] == bufs[i + 1..];
    DropSplit(s, o + gone, Content(bufs[i]), Flat(bufs[i + 1..]));
  }

  /** Buffer i keeps the bytes around a gap of k bytes at off. */
  lemma EraseCuts(bufs: seq<VBuf>, i: nat, s: seq<byte>, o: nat, off: nat, gone: nat, k: nat, b: VBuf)
    requires Erasing(bufs, i, s, o, off, gone) && i < |bufs| && Sound(b)
    requires off + k <= bufs[i].size && Content(b) == Content(bufs[i])[..off] + Content(bufs[i])[off + k..]
    ensures o + gone + k <= |s| && AllSound(bufs[i := b])
    ensures Flat(bufs[i := b]) == s[..o] + s[o + gone + k..]
    ensures off + k == bufs[i].size ==> Erasing(bufs[i := b], i + 1, s, o, 0, gone + k)
  {
    hide Flat, Content, Sound, AllSound;
    FlatAround(bufs, i);
    var bufs' := bufs[i := b];
    FlatUpdate(bufs, i, b);
    FlatAround(bufs', i);
    assert bufs'[..i] == bufs[..i] && bufs'[i + 1..] == bufs[i + 1..];
    CutOver(s, o, off, gone, k, Flat(bufs[..i]), Content(bufs[i]), Flat(bufs[i + 1..]));
  }

  lemma EraseEnds(bufs: seq<VBuf>, s: seq<byte>, o: nat, off: nat, gone: nat)
    requires Erasing(bufs, |bufs|, s, o, off, gone)
    ensures Flat(bufs) == s[..o - off] && o - off + gone == |s|
  {
    hide Flat, AllSound;
    FlatAll(bufs);
  }

  lemma EraseDone(bufs: seq<VBuf>, i: nat, s: seq<byte>, o: nat, gone: nat)
    requires Erasing(bufs, i, s, o, 0, gone)
    ensures Flat(bufs) == s[..o] + s[o + gone..]
  {
    hide Flat, Content, Sound;
    assert bufs == bufs[..i] + bufs[i..];
    FlatAppend(bufs[..i], bufs[i..]);
  }

  /** A gap in the middle of one buffer. */
  function Gapped(b: VBuf, off: nat, k: nat): (r: VBuf)
    requires Sound(b) && b.block.None? && off + k <= b.size
    ensures Sound(r) && r.block.None?
    ensures Content(r) == Content(b)[..off] + Content(b)[off + k..]
  {
    b.(data := b.data[..off] + b.data[off + k..b.size] + b.data[b.size - k..], size := b.size - k)
  }

  lemma MinBounds(a: nat, b: nat)
    ensures Min(a, b) <= a && Min(a, b) <= b && (Min(a, b) == a || Min(a, b) == b)
  {
  }

  lemma NothingWritten(s: seq<byte>, o: nat)
    ensures Written(s, o, []) == s
  {
  }

  lemma WritingSound(bufs: seq<VBuf>, i: nat, s: seq<byte>, x: seq<byte>, o: nat, off: nat, count: nat)
    requires Writing(bufs, i, s, x, o, off, count)
    ensures AllSound(bufs) && (i < |bufs| ==> Sound(bufs[i]))
  {
  }

  lemma NothingLeft(t: seq<byte>, s: seq<byte>, o: nat, x: seq<byte>)
    requires t == Written(s, o, x) && o + |x| <= |s|
    ensures |t| == |s| && t + x[|x|..] == Written(s, o, x)
  {
  }

  /** A buffer with the bytes c behind its used part, within its capacity. */
  function Extended(b: VBuf, c: seq<byte>): (r: VBuf)
    requires Sound(b) && b.block.None? && b.size + |c| <= b.capacity
    ensures Sound(r) && r.block.None? && r.size == b.size + |c|
    ensures Content(r) == Content(b) + c
  {
    b.(data := b.data[..b.size] + c, size := b.size + |c|)
  }

  lemma BackRoom(b: VBuf)
    requires Sound(b) && b.block.None?
    ensures b.size <= b.capacity
  {
  }

  lemma ExtendBack(bufs: seq<VBuf>, c: seq<byte>)
    requires AllSound(bufs) && |bufs| > 0
    requires var b := bufs[|bufs| - 1]; b.block.None? && b.size + |c| <= b.capacity
    ensures var bufs' := bufs[|bufs| - 1 := Extended(bufs[|bufs| - 1], c)];
            AllSound(bufs') && Flat(bufs') == Flat(bufs) + c
  {
    hide Flat, Content, Sound, Extended;
    var i := |bufs| - 1;
    var b := bufs[i];
    FlatLast(bufs[..i], b);
    FlatLast(bufs[..i], Extended(b, c));
    assert bufs == bufs[..i] + [b] && bufs[i := Extended(b, c)] == bufs[..i] + [Extended(b, c)];
    Reassociate(Flat(bufs[..i]), Content(b), c);
  }

  lemma AppendBuffer(bufs: seq<VBuf>, x: seq<byte>, capacity: nat)
    requires AllSound(bufs) && |x| <= capacity
    ensures var b := VBuf(None, x, capacity, 0, |x|);
            Sound(b) && AllSound(bufs + [b]) && Flat(bufs + [b]) == Flat(bufs) + x
  {
    hide Flat;
    var b := VBuf(None, x, capacity, 0, |x|);
    assert Content(b) == x;
    FlatLast(bufs, b);
  }

  lemma NothingSpliced(s: seq<byte>, o: nat)
    ensures (o < |s| ==> Spliced(s, o, []) == s) && s + [] == s
  {
  }

  /** A buffer with x in front of the byte at off; inserting may move its memory. */
  function Inserted(b: VBuf, off: nat, x: seq<byte>, capacity: nat): (r: VBuf)
    requires Sound(b) && b.block.None? && off <= b.size && |b.data| + |x| <= capacity
    ensures Sound(r) && r.block.None? && r.size == b.size + |x|
    ensures Content(r) == Content(b)[..off] + x + Content(b)[off..]
  {
    b.(data := b.data[..off] + x + b.data[off..], capacity := capacity, size := b.size + |x|)
  }

  lemma InsertMoves(bufs: seq<VBuf>, i: nat, o: nat, off: nat, x: seq<byte>, capacity: nat)
    requires AllSound(bufs) && i < |bufs| && off <= o && AllSound(bufs[..i]) && |Flat(bufs[..i])| == o - off
    requires Sound(bufs[i]) && bufs[i].block.None? && off <= bufs[i].size && |bufs[i].data| + |x| <= capacity
    ensures o <= |Flat(bufs)|
    ensures var bufs' := bufs[i := Inserted(bufs[i], off, x, capacity)];
            AllSound(bufs') && Flat(bufs') == Spliced(Flat(bufs), o, x)
  {
    hide *;
    FlatAround(bufs, i);
    FlatSizes(bufs, i);
    FlatUpdate(bufs, i, Inserted(bufs[i], off, x, capacity));
    InsertAlgebra(Flat(bufs[..i]), Content(bufs[i]), Flat(bufs[i + 1..]), off, x);
  }

  lemma InsertAlgebra(a: seq<byte>, c: seq<byte>, d: seq<byte>, off: nat, x: seq<byte>)
    requires off <= |c|
    ensures |a| + off <= |a + (c + d)|
    ensures a + (c[..off] + x + c[off..]) + d == Spliced(a + (c + d), |a| + off, x)
  {
    assert (a + (c + d))[..|a| + off] == a + c[..off];
    assert (a + (c + d))[|a| + off..] == c[off..] + d;
    Regroup(a, c[..off], x, c[off..], d);
  }

  lemma NothingErased(s: seq<byte>, o: nat, n: nat)
    ensures n == 0 || o >= |s| ==> Erased(s, o, n) == s
    ensures n > 0 && o < |s| ==> Erased(s, o, n) == s[..o] + s[o + Min(n, |s| - o)..]
  {
  }

  lemma ErasingSound(bufs: seq<VBuf>, i: nat, s: seq<byte>, o: nat, off: nat, gone: nat)
    requires Erasing(bufs, i, s, o, off, gone)
    ensures AllSound(bufs) && (i < |bufs| ==> Sound(bufs[i]) && |Content(bufs[i])| == bufs[i].size)
    ensures off > 0 ==> gone == 0
  {
  }

  lemma TruncatedSound(b: VBuf, off: nat)
    requires Sound(b) && b.block.None? && off <= b.size
    ensures Sound(b.(size := off)) && Content(b.(size := off)) == Content(b)[..off] + Content(b)[b.size..]
  {
  }

  lemma GappedSound(b: VBuf, off: nat, k: nat)
    requires Sound(b) && b.block.None? && off + k <= b.size
    ensures Sound(Gapped(b, off, k)) && Gapped(b, off, k).block.None?
    ensures Content(Gapped(b, off, k)) == Content(b)[..off] + Content(b)[off + k..]
  {
  }

  /** m bytes moved down by n to offset o. */
  ghost function Moved(s: seq<byte>, o: nat, n: nat, m: nat): (t: seq<byte>)
    requires o + n + m <= |s|
    ensures |t| == |s|
  {
    s[..o] + s[o + n..o + n + m] + s[o + m..]
  }

  lemma NothingMoved(s: seq<byte>, o: nat, n: nat)
    ensures o + n <= |s| ==> Moved(s, o, n, 0) == s
  {
  }

  /** The next sz bytes read from their old place and written to their new one. */
  lemma MoveStep(buf: seq<byte>, buf0: seq<byte>, s: seq<byte>, o: nat, n: nat, m: nat, sz: nat)
    requires o + n + m + sz <= |s| && sz > 0 && Reading(buf, buf0, Moved(s, o, n, m), o + m + n, sz)
    ensures |buf| >= sz && Written(Moved(s, o, n, m), o + m, buf[..sz]) == Moved(s, o, n, m + sz)
  {
    var t, p := Moved(s, o, n, m), o + m;
    assert buf[..sz] == t[p + n..p + n + sz];
    assert t[p + n..p + n + sz] == s[p + n..p + n + sz] by {
      assert t[p..] == s[p..];
      assert t[p..][n..n + sz] == s[p..][n..n + sz];
    }
    assert t[..p] == s[..o] + s[o + n..o + n + m];
    assert t[p + sz..] == s[p + sz..];
    SliceJoin(s, o + n, o + n + m, o + n + m + sz);
    Reassociate(s[..o], s[o + n..o + n + m], s[o + n + m..o + n + m + sz]);
  }

  /** The last n bytes, j of them set to x. */
  ghost function Filling(s: seq<byte>, n: nat, j: nat, x: byte): (t: seq<byte>)
    requires j <= n <= |s|
    ensures |t| == |s|
  {
    s[..|s| - n] + Fill(j, x) + s[|s| - n + j..]
  }

  lemma NothingFilled(s: seq<byte>, n: nat, x: byte)
    requires n <= |s|
    ensures Filling(s, n, 0, x) == s
  {
  }

  lemma AllFilled(s: seq<byte>, n: nat, x: byte)
    requires n <= |s|
    ensures Filling(s, n, n, x) == s[..|s| - n] + Fill(n, x)
  {
  }

  lemma FillStep(s: seq<byte>, n: nat, j: nat, x: byte, c: seq<byte>)
    requires j + |c| <= n <= |s| && forall k :: 0 <= k < |c| ==> c[k] == x
    ensures Written(Filling(s, n, j, x), |s| - n + j, c) == Filling(s, n, j + |c|, x)
  {
    var t, p := Filling(s, n, j, x), |s| - n + j;
    assert c == Fill(|c|, x);
    assert t[..p] == s[..|s| - n] + Fill(j, x);
    assert t[p + |c|..] == s[p + |c|..];
    assert Fill(j, x) + Fill(|c|, x) == Fill(j + |c|, x);
    Reassociate(s[..|s| - n], Fill(j, x), c);
  }

  lemma ShiftedIs(s: seq<byte>, o: nat, n: nat, x: byte, t: seq<byte>)
    requires o + n <= |s| && t == Moved(s, o, n, |s| - o - n)
    ensures |t| == |s| && t[..|s| - n] + Fill(n, x) == Shifted(s, o, n, x)
  {
    assert t[..|s| - n] == s[..o] + s[o + n..];
  }

  lemma Available(o: nat, size: nat, total: nat)
    requires o + size <= total < TWO_64
    ensures DataAvailable(o, size, total)
  {
  }

  class VirtualBuffer {
    var buffers: seq<VBuf>
    var totalSize: nat
    var modified: bool

    ghost predicate Valid()
      reads this
    {
      AllSound(buffers) && totalSize == |Flat(buffers)| < TWO_64
    }

    /** The bytes of the whole buffer. */
    ghost function View(): (s: seq<byte>)
      reads this
      requires Valid()
      ensures |s| == totalSize
    {
      Flat(buffers)
    }

    constructor ()
      ensures Valid() && View() == [] && InMemory(buffers) && !modified
    {
      buffers, totalSize, modified := [], 0, false;
    }

    /** Appends a window into a page, unless the buffer was modified. */
    method AddBuffer(page: seq<byte>, offset: nat, size: nat) returns (r: Result<()>)
      requires Valid() && offset + size <= |page| && totalSize + size < TWO_64
      modifies this
      ensures Valid() && modified == old(modified) && (r.Ok? <==> !old(modified))
      ensures r.Err? ==> r.error == LogicError && View() == old(View()) && buffers == old(buffers)
      ensures r.Ok? ==> View() == old(View()) + page[offset..offset + size]
    {
      if modified {
        return Err(LogicError);
      }
      var append := VBuf(Some(page), [], 0, offset, size);
      FlatLast(buffers, append);
      buffers := buffers + [append];
      totalSize := totalSize + size;
      return Ok(());
    }

    /** Copies up to `size` bytes from `offset` on into buf; a full read needs them all to be there. */
    method PRead(buf: array<byte>, size: nat, offset: nat, full: bool) returns (r: Result<int>)
      requires Valid() && size <= buf.Length && size < TWO_64 && offset < TWO_64
      modifies buf
      ensures r.Err? <==> size > 0 && full && !DataAvailable(offset, size, totalSize)
      ensures r.Err? ==> r.error == InvalidSize && buf[..] == old(buf[..])
      ensures r.Ok? ==>
        var n := Readable(offset, size, totalSize);
        && r.value == Narrow(n)
        && Reading(buf[..], old(buf[..]), View(), offset, n)
    {
      NarrowSmall(0);
      ReadStarts(buf[..], View(), offset);
      hide Narrow, DataAvailable, Reading, Flat;
      if size == 0 {
        return Ok(0);
      }
      if full && !DataAvailable(offset, size, totalSize) {
        return Err(InvalidSize);
      }
      var count := Gather(buf, size, offset);
      return Ok(Narrow(count));
    }

    /** The next sz bytes of a read, from buffer i. */
    method TakeFrom(buf: array<byte>, i: nat, offset: nat, off: nat, count: nat, sz: nat, ghost buf0: seq<byte>)
      requires Valid() && i < |buffers| && off <= offset && off + sz <= buffers[i].size
      requires AllSound(buffers[..i]) && |Flat(buffers[..i])| == offset - off + count
      requires Reading(buf[..], buf0, View(), offset, count) && count + sz <= buf.Length == |buf0|
      modifies buf
      ensures offset + count + sz <= totalSize && Reading(buf[..], buf0, View(), offset, count + sz)
    {
      hide Flat, Content, AllSound, Sound, Reading;
      FlatSizes(buffers, i);
      ReadMoves(buffers, i, offset, off, count, sz);
      ReadCopied(buf[..], buf0, Flat(buffers), offset, count, Content(buffers[i])[off..off + sz]);
      CopyInto(buf, count, Content(buffers[i])[off..off + sz]);
    }

    /** The loop of a read over the buffers. */
    method Gather(buf: array<byte>, size: nat, offset: nat) returns (count: nat)
      requires Valid() && 0 < size <= buf.Length
      modifies buf
      ensures count == Readable(offset, size, totalSize) && Reading(buf[..], old(buf[..]), View(), offset, count)
    {
      hide Flat, Content, AllSound, Sound, Reading, Min, Readable;
      FlatAll(buffers);
      ghost var buf0 := buf[..];
      ReadStarts(buf0, Flat(buffers), offset);
      var left, off := size, offset;
      count := 0;
      for i := 0 to |buffers|
        invariant left + count == size && left > 0 && 0 <= off <= offset && (off > 0 ==> count == 0)
        invariant AllSound(buffers[..i]) && |Flat(buffers[..i])| == offset - off + count
        invariant offset - off + count <= totalSize
        invariant Reading(buf[..], buf0, Flat(buffers), offset, count)
      {
        FlatSizes(buffers, i);
        var b := buffers[i];
        if off >= b.size {
          off := off - b.size;
        } else {
          MinBounds(left, b.size - off);
          var sz := Min(left, b.size - off);
          TakeFrom(buf, i, offset, off, count, sz, buf0);
          left, count := left - sz, count + sz;
          if left == 0 {
            ReadableIs(offset, size, totalSize);
            return;
          }
          off := 0;
        }
      }
      FlatAll(buffers);
      ReadableIs(offset, size, totalSize);
    }

    /** Writes x at `offset`; what does not fit behind `offset` goes to the end when growth is allowed. */
    method PWrite(x: seq<byte>, offset: nat, allowGrowth: bool) returns (r: Result<int>)
      requires Valid() && InMemory(buffers) && |x| < TWO_64 && offset < TWO_64
      requires |Written(View(), offset, x)| < TWO_64
      modifies this
      ensures Valid() && InMemory(buffers)
      ensures r.Err? <==> |x| > 0 && !allowGrowth && !DataAvailable(offset, |x|, old(totalSize))
      ensures r.Err? ==> r.error == InvalidSize && buffers == old(buffers) && modified == old(modified)
      ensures r.Ok? ==> r.value == Narrow(|x|) && View() == Written(old(View()), offset, x)
      ensures r.Ok? ==> modified == (old(modified) || |x| > 0)
    {
      NarrowSmall(0);
      hide Narrow, DataAvailable, Flat;
      if |x| == 0 {
        NothingWritten(View(), offset);
        return Ok(0);
      }
      if !allowGrowth && !DataAvailable(offset, |x|, totalSize) {
        return Err(InvalidSize);
      }
      var count := Overwrite(x, offset);
      if count < |x| {
        Grow(x[count..]);
      }
      modified := true;
      return Ok(Narrow(|x|));
    }

    /** The loop of a write over the buffers there are. */
    method Overwrite(x: seq<byte>, offset: nat) returns (count: nat)
      requires Valid() && InMemory(buffers) && |x| > 0
      modifies `buffers
      ensures Valid() && InMemory(buffers) && count <= |x|
      ensures View() + x[count..] == Written(old(View()), offset, x)
    {
      hide Flat, Content, AllSound, Sound, Overwritten, Writing, Written, Min;
      ghost var s := View();
      WriteStarts(buffers, x, offset);
      var off := offset;
      count := 0;
      for i := 0 to |buffers|
        invariant |buffers| == |old(buffers)| && InMemory(buffers) && 0 <= off <= offset && 0 <= count < |x|
        invariant Writing(buffers, i, s, x, offset, off, count)
      {
        WritingSound(buffers, i, s, x, offset, off, count);
        var b := buffers[i];
        if off >= b.size {
          WriteSkips(buffers, i, s, x, offset, off, count);
          off := off - b.size;
        } else {
          MinBounds(|x| - count, b.size - off);
          var sz := Min(|x| - count, b.size - off);
          WriteMoves(buffers, i, s, x, offset, off, count, sz);
          buffers := buffers[i := Overwritten(b, off, x[count..count + sz])];
          count := count + sz;
          if count == |x| {
            NothingLeft(Flat(buffers), s, offset, x);
            return;
          }
          off := 0;
        }
      }
      WritingSound(buffers, |buffers|, s, x, offset, off, count);
      WriteEnds(buffers, s, x, offset, off, count);
    }

    /** Bytes behind the end: first what the last buffer has room for, the rest in a buffer of its own. */
    method Grow(y: seq<byte>)
      requires Valid() && InMemory(buffers) && |y| > 0 && totalSize + |y| < TWO_64
      modifies `buffers, `totalSize
      ensures Valid() && InMemory(buffers) && View() == old(View()) + y
    {
      hide Flat, Content, Sound, Extended;
      var rest := y;
      if |buffers| > 0 {
        var i := |buffers| - 1;
        var b := buffers[i];
        BackRoom(b);
        var available := b.capacity - b.size;
        if available > 0 {
          var sz := Min(available, |y|);
          ExtendBack(buffers, y[..sz]);
          buffers := buffers[i := Extended(b, y[..sz])];
          totalSize := totalSize + sz;
          if sz == |y| {
            return;
          }
          rest := y[sz..];
          Reassociate(old(View()), y[..sz], y[sz..]);
        }
      }
      var capacity: nat :| capacity >= |rest|;
      AppendBuffer(buffers, rest, capacity);
      buffers := buffers + [VBuf(None, rest, capacity, 0, |rest|)];
      totalSize := totalSize + |rest|;
    }

    /** Inserts x in front of the byte at `offset`, or behind the end. The code after the loop is never reached. */
    method PInsert(x: seq<byte>, offset: nat) returns (r: Result<int>)
      requires Valid() && InMemory(buffers) && |x| < TWO_64 && offset < TWO_64 && totalSize + |x| < TWO_64
      modifies this
      ensures Valid() && InMemory(buffers) && r == Ok(Narrow(|x|)) && modified == (old(modified) || |x| > 0)
      ensures View() == if offset < old(totalSize) then Spliced(old(View()), offset, x) else old(View()) + x
    {
      hide Flat, Content, AllSound, Sound, Narrow, Inserted;
      NarrowSmall(0);
      if |x| == 0 {
        NothingSpliced(View(), offset);
        return Ok(0);
      }
      if offset >= totalSize {
        r := PWrite(x, offset, true);
        return;
      }
      ghost var s := View();
      var off: nat := offset;
      FlatAll(buffers);
      for i := 0 to |buffers|
        invariant buffers == old(buffers) && totalSize == old(totalSize) && modified == old(modified)
        invariant 0 <= off <= offset && AllSound(buffers[..i]) && |Flat(buffers[..i])| == offset - off
      {
        FlatSizes(buffers, i);
        var b := buffers[i];
        if off >= b.size {
          off := off - b.size;
        } else {
          var capacity: nat :| capacity >= |b.data| + |x|;
          InsertMoves(buffers, i, offset, off, x, capacity);
          buffers := buffers[i := Inserted(b, off, x, capacity)];
          totalSize := totalSize + |x|;
          modified := true;
          return Ok(Narrow(|x|));
        }
      }
      FlatAll(buffers);
      assert false;
    }

    /** Removes up to `size` bytes from `offset` on: whole buffers, ends, starts and gaps. */
    method PErase(size: nat, offset: nat) returns (r: Result<int>)
      requires Valid() && InMemory(buffers) && size < TWO_64 && offset < TWO_64
      modifies this
      ensures Valid() && InMemory(buffers) && View() == Erased(old(View()), offset, size)
      ensures r == Ok(Narrow(old(totalSize) - totalSize)) && modified == (old(modified) || totalSize < old(totalSize))
    {
      hide Flat, Content, AllSound, Sound, Narrow, Gapped, Erasing;
      ghost var s := View();
      NothingErased(s, offset, size);
      if size == 0 || offset >= totalSize {
        return Ok(Narrow(0));
      }
      var n := Min(size, totalSize - offset);
      var left, off, gone := n, offset, 0;
      var i := 0;
      EraseStarts(buffers, offset);
      while i < |buffers| && left > 0
        invariant 0 <= i <= |buffers| && 0 <= off <= offset && 0 <= gone && 0 <= left && gone + left == n
        invariant InMemory(buffers) && totalSize == |s| - gone && modified == old(modified)
        invariant Erasing(buffers, i, s, offset, off, gone)
        decreases |buffers| - i
      {
        ErasingSound(buffers, i, s, offset, off, gone);
        var b := buffers[i];
        if off >= b.size {
          EraseSkips(buffers, i, s, offset, off, gone);
          off := off - b.size;
          i := i + 1;
        } else if off + left >= b.size {
          if off == 0 {
            EraseDrops(buffers, i, s, offset, gone);
            buffers := buffers[..i] + buffers[i + 1..];
            left, totalSize, gone := left - b.size, totalSize - b.size, gone + b.size;
          } else {
            var sz := b.size - off;
            TruncatedSound(b, off);
            EraseCuts(buffers, i, s, offset, off, gone, sz, b.(size := off));
            buffers := buffers[i := b.(size := off)];
            left, totalSize, gone := left - sz, totalSize - sz, gone + sz;
            off := 0;
            i := i + 1;
          }
        } else {
          GappedSound(b, off, left);
          EraseCuts(buffers, i, s, offset, off, gone, left, Gapped(b, off, left));
          buffers := buffers[i := Gapped(b, off, left)];
          totalSize, gone := totalSize - left, gone + left;
          left := 0;
          modified := true;
          return Ok(Narrow(gone));
        }
      }
      ErasingSound(buffers, i, s, offset, off, gone);
      if i == |buffers| {
        EraseEnds(buffers, s, offset, off, gone);
      }
      EraseDone(buffers, i, s, offset, gone);
      modified := modified || gone != 0;
      return Ok(Narrow(gone));
    }

    /**
     * Moves the bytes from offset - size on down to `offset`, in overlapping pieces, and fills the end;
     * only shifts to the left exist, and they fail when the bytes to drop are not all there.
     */
    method PShift(size: int, offset: nat, x: byte) returns (r: Result<int>)
      requires Valid() && InMemory(buffers) && -0x8000_0000_0000_0000 < size < 0x8000_0000_0000_0000
      requires offset < TWO_64 && offset - size < TWO_64
      modifies this
      ensures Valid() && InMemory(buffers)
      ensures r.Err? <==> size > 0 || (size < 0 && offset - size > old(totalSize))
      ensures r.Err? || size == 0 ==> View() == old(View()) && modified == old(modified)
      ensures size == 0 ==> r.value == 0
      ensures r.Ok? && size < 0 ==> View() == Shifted(old(View()), offset, -size, x) && modified
      ensures r.Ok? && size < 0 ==> r.value == Narrow(old(totalSize) - offset)
    {
      hide Flat, AllSound, Narrow, Moved, Shifted;
      if size == 0 {
        return Ok(0);
      }
      if size > 0 {
        return Err(InvalidSize);
      }
      var n := -size;
      ghost var s := View();
      var moved := MoveDown(n, offset);
      if moved.Err? {
        return moved;
      }
      ShiftedIs(s, offset, n, x, View());
      var filled := FillEnd(n, x);
      return Ok(Narrow(moved.value + filled));
    }

    /** The moving loop, with its 64-bit count of the bytes to move. */
    method MoveDown(n: nat, offset: nat) returns (r: Result<int>)
      requires Valid() && InMemory(buffers) && 0 < n < TWO_64 / 2 && offset + n < TWO_64
      modifies this
      ensures Valid() && InMemory(buffers)
      ensures r.Err? <==> offset + n > old(totalSize)
      ensures r.Err? ==> View() == old(View()) && modified == old(modified)
      ensures totalSize == old(totalSize)
      ensures r.Ok? ==>
                r.value == totalSize - offset - n && View() == Moved(old(View()), offset, n, totalSize - offset - n)
    {
      hide Flat, AllSound, Narrow, Moved, DataAvailable, Written, Reading;
      ghost var s := View();
      var buf := new byte[CHUNK];
      var left: nat, o: nat, moved: nat := (totalSize - offset - n) % TWO_64, offset, 0;
      NothingMoved(s, offset, n);
      while left > 0
        invariant Valid() && InMemory(buffers) && totalSize == |s| && moved == o - offset && 0 <= moved && 0 <= left
        invariant offset + n > |s| ==> o == offset && left > 0 && View() == s && modified == old(modified)
        invariant offset + n <= |s| ==> left == |s| - n - o && View() == Moved(s, offset, n, moved)
      {
        var sz := Min(CHUNK, left);
        NarrowSmall(sz);
        NarrowSmall(0);
        ghost var buf0 := buf[..];
        var got := PRead(buf, sz, o + n, true);
        if offset + n <= |s| {
          Available(o + n, sz, totalSize);
          Available(o, sz, totalSize);
        }
        if got.Err? || got.value != sz {
          return Err(if got.Err? then got.error else IoError);
        }
        MoveStep(buf[..], buf0, s, offset, n, moved, sz);
        var put := PWrite(buf[..sz], o, false);
        if put.Err? || put.value != sz {
          return Err(IoError);
        }
        o, left, moved := o + sz, left - sz, moved + sz;
      }
      return Ok(moved);
    }

    /** The last n bytes set to x. */
    method FillEnd(n: nat, x: byte) returns (filled: nat)
      requires Valid() && InMemory(buffers) && 0 < n <= totalSize
      modifies this
      ensures Valid() && InMemory(buffers) && modified
      ensures View() == old(View())[..old(totalSize) - n] + Fill(n, x) && filled == n
    {
      hide Flat, AllSound, Narrow, DataAvailable, Written, Filling;
      var buf := new byte[CHUNK];
      forall k | 0 <= k < Min(CHUNK, n) {
        buf[k] := x;
      }
      ghost var s := View();
      var o := totalSize - n;
      filled := 0;
      NothingFilled(s, n, x);
      while o < totalSize
        invariant Valid() && InMemory(buffers) && totalSize == |s| && o == |s| - n + filled && 0 <= filled <= n
        invariant forall k :: 0 <= k < Min(CHUNK, n) ==> buf[k] == x
        invariant View() == Filling(s, n, filled, x) && (filled > 0 ==> modified)
      {
        var sz := Min(CHUNK, totalSize - o);
        NarrowSmall(sz);
        Available(o, sz, totalSize);
        FillStep(s, n, filled, x, buf[..sz]);
        var put := PWrite(buf[..sz], o, false);
        assert put.Ok? && put.value == sz;
        o, filled := o + sz, filled + sz;
      }
      AllFilled(s, n, x);
    }
  }

  // ---- calls that answer each other ----

  lemma ReadBytes(buf: seq<byte>, buf0: seq<byte>, s: seq<byte>, o: nat, n: nat)
    requires Reading(buf, buf0, s, o, n)
    ensures n <= |buf| && buf[..n] == if n > 0 then s[o..o + n] else []
  {
  }

  lemma ReadableIsPresent(s: seq<byte>, o: nat, n: nat)
    ensures Readable(o, n, |s|) == Present(s, o, n)
  {
  }

  /** Removing what was inserted restores the bytes, exactly when the offset did not lie past the end. */
  method InsertThenErase(v: VirtualBuffer, x: seq<byte>, offset: nat)
    requires v.Valid() && InMemory(v.buffers) && |x| < TWO_64 && offset < TWO_64 && v.totalSize + |x| < TWO_64
    modifies v
    ensures v.Valid() && InMemory(v.buffers)
    ensures v.View() == old(v.View()) <==> x == [] || offset <= |old(v.View())|
  {
    hide Flat, AllSound, InMemory, Narrow;
    ghost var s := v.View();
    var inserted := v.PInsert(x, offset);
    var erased := v.PErase(|x|, offset);
    InsertEraseBytes(s, offset, x);
  }

  /** Inserting what was read before it was removed restores the bytes, wherever that is. */
  method EraseThenInsert(v: VirtualBuffer, size: nat, offset: nat)
    requires v.Valid() && InMemory(v.buffers) && size < TWO_64 && offset < TWO_64
    modifies v
    ensures v.Valid() && InMemory(v.buffers) && v.View() == old(v.View())
  {
    hide Flat, AllSound, InMemory, Narrow, Reading;
    ghost var s := v.View();
    var buf := new byte[size];
    ghost var before := buf[..];
    var got := v.PRead(buf, size, offset, false);
    var n := Readable(offset, size, v.totalSize);
    ReadableIsPresent(s, offset, size);
    ReadBytes(buf[..], before, s, offset, n);
    var erased := v.PErase(size, offset);
    EraseInsertBytes(s, offset, size, buf[..n]);
    var inserted := v.PInsert(buf[..n], offset);
  }

  /**
   * What was written is read back, all of it exactly when the offset did not lie past the end; the other
   * bytes stay, and a write within the end keeps the size.
   */
  method WriteThenRead(v: VirtualBuffer, x: seq<byte>, offset: nat) returns (buf: array<byte>, r: Result<int>)
    requires v.Valid() && InMemory(v.buffers) && |x| < TWO_64 && offset < TWO_64
    requires |Written(v.View(), offset, x)| < TWO_64
    modifies v
    ensures v.Valid() && InMemory(v.buffers) && fresh(buf) && buf.Length == |x|
    ensures offset <= |old(v.View())| ==> r == Ok(Narrow(|x|)) && buf[..] == x
    ensures Readable(offset, |x|, v.totalSize) == |x| <==> x == [] || offset <= |old(v.View())|
    ensures offset + |x| <= |old(v.View())| ==> |v.View()| == |old(v.View())|
    ensures forall i :: 0 <= i < |old(v.View())| && !(offset <= i < offset + |x|) ==>
              i < |v.View()| && v.View()[i] == old(v.View())[i]
  {
    hide Flat, AllSound, InMemory, Narrow, Reading, DataAvailable;
    ghost var s := v.View();
    buf := new byte[|x|];
    ghost var before := buf[..];
    var put := v.PWrite(x, offset, true);
    WrittenBytes(s, offset, x);
    if offset <= |s| {
      Available(offset, |x|, v.totalSize);
    }
    r := v.PRead(buf, |x|, offset, true);
    if offset <= |s| {
      ReadBytes(buf[..], before, v.View(), offset, |x|);
    }
  }
}
