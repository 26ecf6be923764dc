/** Facts about concatenation and slicing. */
module Sequences {

  lemma Reassociate<T>(x: seq<T>, y: seq<T>, z: seq<T>)
    ensures x + (y + z) == (x + y) + z
  {
  }

  lemma SliceJoin<T>(s: seq<T>, i: nat, j: nat, k: nat)
    requires i <= j <= k <= |s|
    ensures s[i..j] + s[j..k] == s[i..k]
  {
  }

  lemma SliceSlice<T>(s: seq<T>, a: nat, b: nat, i: nat, j: nat)
    requires a <= b <= |s| && i <= j <= b - a
    ensures s[a..b][i..j] == s[a + i..a + j]
  {
    forall k | 0 <= k < j - i ensures s[a..b][i..j][k] == s[a + i..a + j][k] {
      assert s[a..b][i + k] == s[a + i + k];
      assert s[a + i..a + j][k] == s[a + i + k];
    }
  }

  /** A slice of the middle part. */
  lemma SliceOf<T>(a: seq<T>, c: seq<T>, d: seq<T>, i: nat, j: nat)
    requires i <= j <= |c|
    ensures |a| + j <= |a + (c + d)| && (a + (c + d))[|a| + i..|a| + j] == c[i..j]
  {
  }

  /** A suffix cut in two is two slices. */
  lemma DropSplit<T>(s: seq<T>, p: nat, c: seq<T>, d: seq<T>)
    requires p <= |s| && s[p..] == c + d
    ensures p + |c| <= |s| && s[p..p + |c|] == c && s[p + |c|..] == d
  {
    assert (c + d)[..|c|] == c && (c + d)[|c|..] == d;
  }

  /** Passing over the bytes c on the way to offset o. */
  lemma PassOver<T>(s: seq<T>, x: seq<T>, o: nat, off: nat, count: nat, a: seq<T>, c: seq<T>, d: seq<T>)
    requires off <= o && count <= |x| && (off > 0 ==> count == 0) && o - off + count <= |s|
    requires a == s[..o - off] + x[..count] && s[o - off + count..] == c + d && |c| <= off
    ensures o - off + |c| + count <= |s|
    ensures a + c == s[..o - off + |c|] + x[..count] && d == s[o - off + |c| + count..]
  {
    var p := o - off + count;
    DropSplit(s, p, c, d);
    if off > 0 {
      assert x[..count] == [];
      SliceJoin(s, 0, p, p + |c|);
      assert s[0..p] == s[..p] && s[0..p + |c|] == s[..p + |c|];
    }
  }

  lemma PutHead<T>(s: seq<T>, x: seq<T>, o: nat, off: nat, count: nat, a: seq<T>, c: seq<T>, d: seq<T>)
    requires off <= o && count <= |x| && (off > 0 ==> count == 0) && o - off + count <= |s|
    requires a == s[..o - off] + x[..count] && s[o - off + count..] == c + d && off <= |c|
    ensures o + count <= |s| && a + c[..off] == s[..o] + x[..count]
  {
    DropSplit(s, o - off + count, c, d);
    PassOver(s, x, o, off, count, a, c[..off], c[off..] + d) by {
      Reassociate(c[..off], c[off..], d);
      assert c[..off] + c[off..] == c;
    }
  }

  lemma PutTail<T>(s: seq<T>, p: nat, c: seq<T>, d: seq<T>, k: nat)
    requires p <= |s| && s[p..] == c + d && k <= |c|
    ensures p + k <= |s| && c[k..] + d == s[p + k..]
  {
    assert (c + d)[k..] == c[k..] + d;
  }

  lemma Regroup<T>(a: seq<T>, h: seq<T>, m: seq<T>, t: seq<T>, d: seq<T>)
    ensures a + (h + m + t) + d == ((a + h) + m) + (t + d)
    ensures a + (h + m + []) == (a + h) + m
  {
  }

  /** The next sz bytes of x replace bytes of c: a before, c around offset off, d after. */
  lemma PutOver<T>(s: seq<T>, x: seq<T>, o: nat, off: nat, count: nat, sz: nat, a: seq<T>, c: seq<T>, d: seq<T>)
    requires off <= o && count <= |x| && (off > 0 ==> count == 0) && o - off + count <= |s|
    requires a == s[..o - off] + x[..count] && s[o - off + count..] == c + d
    requires off + sz <= |c| && count + sz <= |x|
    ensures var c' := c[..off] + x[count..count + sz] + c[off + sz..];
            && o + count + sz <= |s|
            && a + c' + d == s[..o] + x[..count + sz] + s[o + count + sz..]
            && (off + sz == |c| ==> a + c' == s[..o] + x[..count + sz] && d == s[o + count + sz..])
  {
    var h, m, t := c[..off], x[count..count + sz], c[off + sz..];
    PutHead(s, x, o, off, count, a, c, d);
    PutTail(s, o - off + count, c, d, off + sz);
    Regroup(a, h, m, t, d);
    Reassociate(s[..o], x[..count], m);
    assert x[..count] + m == x[..count + sz];
    if off + sz == |c| {
      assert t == [] && t + d == d;
    }
  }

  /** k bytes of c at off fall out: a before, d after. */
  lemma CutOver<T>(s: seq<T>, o: nat, off: nat, gone: nat, k: nat, a: seq<T>, c: seq<T>, d: seq<T>)
    requires off <= o && (off > 0 ==> gone == 0) && o - off + gone <= |s| && off + k <= |c|
    requires a == s[..o - off] && s[o - off + gone..] == c + d
    ensures o + gone + k <= |s|
    ensures a + (c[..off] + c[off + k..]) + d == s[..o] + s[o + gone + k..]
    ensures off + k == |c| ==> a + (c[..off] + c[off + k..]) == s[..o] && d == s[o + gone + k..]
  {
    var h, t := c[..off], c[off + k..];
    if off > 0 {
      PutHead(s, [], o, off, 0, a, c, d);
      assert a + [] == a;
    } else {
      assert h == [] && a + h == a;
    }
    PutTail(s, o - off + gone, c, d, off + k);
    Regroup(a, h, [], t, d);
    assert h + [] == h && a + h + [] == a + h;
    if off + k == |c| {
      assert t == [] && t + d == d;
    }
  }

  /** x written over s at offset a. */
  function Overlaid<T>(s: seq<T>, a: nat, x: seq<T>): (r: seq<T>)
    requires a + |x| <= |s|
    ensures |r| == |s|
  {
    s[..a] + x + s[a + |x|..]
  }

  /** Writing x and then y right behind it is writing x + y. */
  lemma OverlaidTwice<T>(s: seq<T>, a: nat, x: seq<T>, y: seq<T>)
    requires a + |x| + |y| <= |s|
    ensures Overlaid(Overlaid(s, a, x), a + |x|, y) == Overlaid(s, a, x + y)
  {
    var t := Overlaid(s, a, x);
    assert t[..a + |x|] == s[..a] + x;
    assert t[a + |x| + |y|..] == s[a + |x| + |y|..];
    Reassociate(s[..a], x, y);
  }

  /** Room for e made at offset a by moving the bytes up to `end` on by |e|. */
  lemma MakeRoom<T>(s: seq<T>, moved: seq<T>, a: nat, end: nat, e: seq<T>)
    requires a <= end && end + |e| <= |s|
    requires moved == s[..a + |e|] + s[a..end] + s[end + |e|..]
    ensures Overlaid(moved, a, e)[..end + |e|] == s[..a] + e + s[a..end]
  {
    var t := Overlaid(moved, a, e);
    assert moved[..a] == s[..a];
    assert moved[a + |e|..] == s[a..end] + s[end + |e|..];
    assert t == (s[..a] + e + s[a..end]) + s[end + |e|..];
  }

  function Reversed<T>(s: seq<T>): (r: seq<T>)
    ensures |r| == |s|
  {
    if |s| == 0 then [] else [s[|s| - 1]] + Reversed(s[..|s| - 1])
  }

  lemma ReversedNone<T>()
    ensures Reversed<T>([]) == []
  {
  }

  lemma ReversedStep<T>(s: seq<T>, j: nat)
    requires j < |s|
    ensures Reversed(s[..j + 1]) == [s[j]] + Reversed(s[..j])
  {
    assert s[..j + 1][..j] == s[..j];
  }

  lemma ReversedSnoc<T>(s: seq<T>, c: T)
    ensures Reversed(s + [c]) == [c] + Reversed(s)
  {
    assert (s + [c])[..|s|] == s;
  }

  /** The parts of what lies from b on. */
  lemma SplitAt<T>(s: seq<T>, b: nat, x: seq<T>, y: seq<T>)
    requires b <= |s| && s[b..] == x + y
    ensures b + |x| <= |s| && s[b..b + |x|] == x && s[b + |x|..] == y
  {
  }

  lemma JoinAt<T>(s: seq<T>, b: nat, e: nat)
    requires b <= e <= |s|
    ensures s[b..] == s[b..e] + s[e..]
  {
  }
}
