/** A deque of buffers read as one flat byte sequence, and what the edits of it mean on that sequence. */
module FlatBytes {
  import opened Buffers
  import opened Results
  import opened Sequences

  /**
   * One buffer of the deque: either a window into a block's page or memory of its own. Memory may be
   * longer than what is used of it, and its capacity longer still.
   */
  datatype VBuf = VBuf(block: Option<seq<byte>>, data: seq<byte>, capacity: nat, offset: nat, size: nat)

  predicate Sound(b: VBuf) {
    match b.block
    case Some(page) => b.offset + b.size <= |page|
    case None => b.size <= |b.data| <= b.capacity
  }

  function Content(b: VBuf): (s: seq<byte>)
    requires Sound(b)
    ensures |s| == b.size
  {
    match b.block
    case Some(page) => page[b.offset..b.offset + b.size]
    case None => b.data[..b.size]
  }

  predicate AllSound(bufs: seq<VBuf>) {
    forall i :: 0 <= i < |bufs| ==> Sound(bufs[i])
  }

  /** The deque as one sequence: the used part of every buffer, in order. */
  ghost function Flat(bufs: seq<VBuf>): seq<byte>
    requires AllSound(bufs)
  {
    if |bufs| == 0 then [] else Flat(bufs[..|bufs| - 1]) + Content(bufs[|bufs| - 1])
  }

  lemma FlatLast(bufs: seq<VBuf>, b: VBuf)
    requires AllSound(bufs) && Sound(b)
    ensures AllSound(bufs + [b]) && Flat(bufs + [b]) == Flat(bufs) + Content(b)
  {
    hide Content, Sound;
    assert (bufs + [b])[..|bufs + [b]| - 1] == bufs;
  }

  lemma {:induction false} FlatAppend(a: seq<VBuf>, b: seq<VBuf>)
    requires AllSound(a) && AllSound(b)
    ensures Flat(a + b) == Flat(a) + Flat(b)
  {
    hide Content, Sound;
    if |b| == 0 {
      assert a + b == a;
      assert Flat(a) + [] == Flat(a);
    } else {
      var b', last := b[..|b| - 1], b[|b| - 1];
      FlatAppend(a, b');
      assert b == b' + [last] && a + b == (a + b') + [last];
      hide Flat, AllSound;
      FlatLast(a + b', last);
      FlatLast(b', last);
      Reassociate(Flat(a), Flat(b'), Content(last));
    }
  }

  lemma FlatOne(b: VBuf)
    requires Sound(b)
    ensures Flat([b]) == Content(b)
  {
    assert [b][..0] == [];
  }

  /** The flat sequence around buffer i. */
  lemma FlatAround(bufs: seq<VBuf>, i: nat)
    requires AllSound(bufs) && i < |bufs|
    ensures AllSound(bufs[..i]) && AllSound(bufs[i..]) && AllSound(bufs[i + 1..]) && AllSound(bufs[..i + 1])
    ensures Sound(bufs[i])
    ensures Flat(bufs) == Flat(bufs[..i]) + Flat(bufs[i..])
    ensures Flat(bufs[i..]) == Content(bufs[i]) + Flat(bufs[i + 1..])
    ensures Flat(bufs[..i + 1]) == Flat(bufs[..i]) + Content(bufs[i])
  {
    hide Content, Sound, Flat;
    assert bufs == bufs[..i] + bufs[i..];
    assert bufs[i..] == [bufs[i]] + bufs[i + 1..];
    assert bufs[..i + 1] == bufs[..i] + [bufs[i]];
    FlatAppend(bufs[..i], bufs[i..]);
    FlatOne(bufs[i]);
    FlatAppend([bufs[i]], bufs[i + 1..]);
    FlatLast(bufs[..i], bufs[i]);
  }

  /** Exchanging buffer i changes its own part only. */
  lemma FlatUpdate(bufs: seq<VBuf>, i: nat, b: VBuf)
    requires AllSound(bufs) && i < |bufs| && Sound(b)
    ensures AllSound(bufs[i := b])
    ensures Flat(bufs[i := b]) == Flat(bufs[..i]) + Content(b) + Flat(bufs[i + 1..])
  {
    hide Content, Sound, Flat;
    var bufs' := bufs[i := b];
    assert bufs'[..i] == bufs[..i] && bufs'[i + 1..] == bufs[i + 1..];
    FlatAround(bufs', i);
    Reassociate(Flat(bufs[..i]), Content(b), Flat(bufs[i + 1..]));
  }

  // ---- what the edits mean ----

  /** Bytes x over s from offset o on, past its end as far as needed; beyond the end there are no gaps. */
  function Written(s: seq<byte>, o: nat, x: seq<byte>): seq<byte> {
    var k := if o <= |s| then o else |s|;
    s[..k] + x + if k + |x| <= |s| then s[k + |x|..] else []
  }

  function Spliced(s: seq<byte>, o: nat, x: seq<byte>): seq<byte>
    requires o <= |s|
  {
    s[..o] + x + s[o..]
  }

  function Cut(s: seq<byte>, o: nat, n: nat): seq<byte>
    requires o + n <= |s|
  {
    s[..o] + s[o + n..]
  }

  /** What perase removes: as much of n bytes from o on as there is. */
  function Erased(s: seq<byte>, o: nat, n: nat): seq<byte> {
    if o >= |s| then s else Cut(s, o, if n <= |s| - o then n else |s| - o)
  }

  /** The bytes from o + n on moved down to o, and the end filled. */
  function Shifted(s: seq<byte>, o: nat, n: nat, x: byte): seq<byte>
    requires o + n <= |s|
  {
    s[..o] + s[o + n..] + Fill(n, x)
  }

  /** The edits byte by byte. */
  lemma EditedBytes(s: seq<byte>, o: nat, x: seq<byte>, i: nat)
    ensures var t := Written(s, o, x); var k := if o <= |s| then o else |s|;
            && |t| == (if k + |x| <= |s| then |s| else k + |x|)
            && (i < |t| ==> t[i] == if k <= i < k + |x| then x[i - k] else s[i])
    ensures o <= |s| ==>
              var t := Spliced(s, o, x);
              && |t| == |s| + |x|
              && (i < |t| ==> t[i] == if i < o then s[i] else if i < o + |x| then x[i - o] else s[i - |x|])
  {
  }

  lemma RemovedBytes(s: seq<byte>, o: nat, n: nat, b: byte, i: nat)
    ensures var t := Erased(s, o, n);
            && |t| == (if o >= |s| then |s| else if o + n <= |s| then |s| - n else o)
            && (i < |t| ==> t[i] == if i < o then s[i] else s[i + n])
    ensures o + n <= |s| ==>
              var t := Shifted(s, o, n, b);
              |t| == |s| && (i < |t| ==> t[i] == if i < o then s[i] else if i + n < |s| then s[i + n] else b)
  {
  }

  /** Shifting left is erasing and then appending the fill. */
  lemma ShiftIsEraseThenAppend(s: seq<byte>, o: nat, n: nat, x: byte)
    requires o + n <= |s|
    ensures Shifted(s, o, n, x) == Written(Erased(s, o, n), |Erased(s, o, n)|, Fill(n, x))
  {
    assert n > 0 ==> o < |s|;
    if o >= |s| {
      assert s[..o] + s[o + n..] == s;
    }
  }

  /** Bytes put in at o, or at the end when o is not before it. */
  function PutIn(s: seq<byte>, o: nat, x: seq<byte>): seq<byte> {
    if o < |s| then Spliced(s, o, x) else s + x
  }

  /** Erasing undoes inserting, unless the offset lay past the end. */
  lemma InsertEraseBytes(s: seq<byte>, o: nat, x: seq<byte>)
    ensures Erased(PutIn(s, o, x), o, |x|) == s <==> x == [] || o <= |s|
  {
    var t := PutIn(s, o, x);
    if x == [] {
      assert t == s;
    } else if o <= |s| {
      assert t == s[..o] + x + s[o..];
      assert Erased(t, o, |x|) == Cut(t, o, |x|) == s;
    } else {
      assert |Erased(t, o, |x|)| > |s|;
    }
  }

  /** How much of n bytes from o on there is. */
  function Present(s: seq<byte>, o: nat, n: nat): (m: nat)
    ensures m <= n && (o <= |s| ==> o + m <= |s|)
  {
    if o >= |s| then 0 else if n <= |s| - o then n else |s| - o
  }

  /** Inserting undoes erasing, wherever it was. */
  lemma EraseInsertBytes(s: seq<byte>, o: nat, n: nat, x: seq<byte>)
    requires |x| == Present(s, o, n) && (o < |s| ==> x == s[o..o + |x|])
    ensures PutIn(Erased(s, o, n), o, x) == s
  {
    if o < |s| {
      RestoredBytes(s, o, x);
    } else {
      assert s + x == s;
    }
  }

  lemma RestoredBytes(s: seq<byte>, o: nat, x: seq<byte>)
    requires o + |x| <= |s| && x == s[o..o + |x|]
    ensures PutIn(Cut(s, o, |x|), o, x) == s
  {
    var e := Cut(s, o, |x|);
    assert e[..o] == s[..o] && e[o..] == s[o + |x|..];
    assert s == s[..o] + x + s[o + |x|..];
    if o == |e| {
      assert s[o + |x|..] == [];
    }
  }

  /** Reading back what was written. */
  lemma WrittenBytes(s: seq<byte>, o: nat, x: seq<byte>)
    ensures o <= |s| ==> |Written(s, o, x)| >= o + |x| && Written(s, o, x)[o..o + |x|] == x
    ensures o + |x| <= |s| ==> |Written(s, o, x)| == |s|
    ensures o > |s| ==> |Written(s, o, x)| == |s| + |x|
    ensures forall i :: 0 <= i < |s| && !(o <= i < o + |x|) ==>
              i < |Written(s, o, x)| && Written(s, o, x)[i] == s[i]
  {
  }
}
