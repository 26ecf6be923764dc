/** Little-endian sequences of 64-bit words and the natural number they stand for. */
module Words {
  import opened Bits

  type Word = w: int | 0 <= w < 0x1_0000_0000_0000_0000

  ghost function Val(s: seq<Word>): nat {
    if |s| == 0 then 0 else s[0] + TWO_64 * Val(s[1..])
  }

  lemma {:induction false} ValAppend(a: seq<Word>, b: seq<Word>)
    ensures Val(a + b) == Val(a) + Pow2(64 * |a|) * Val(b)
  {
    if |a| == 0 {
      assert a + b == b;
    } else {
      ValAppend(a[1..], b);
      assert (a + b)[1..] == a[1..] + b;
      Pow2Sizes();
      Pow2Add(64, 64 * (|a| - 1));
      MulAssoc(TWO_64, Pow2(64 * (|a| - 1)), Val(b));
    }
  }

  lemma ValSnoc(a: seq<Word>, w: Word)
    ensures Val(a + [w]) == Val(a) + Pow2(64 * |a|) * w
  {
    ValAppend(a, [w]);
    assert Val([w]) == w;
  }

  /** Extending a prefix by one word. */
  lemma ValPrefix(s: seq<Word>, i: nat)
    requires i < |s|
    ensures Val(s[..i + 1]) == Val(s[..i]) + Pow2(64 * i) * s[i]
  {
    assert s[..i + 1] == s[..i] + [s[i]];
    ValSnoc(s[..i], s[i]);
  }

  lemma ValSplit(s: seq<Word>, i: nat)
    requires i <= |s|
    ensures Val(s) == Val(s[..i]) + Pow2(64 * i) * Val(s[i..])
  {
    assert s == s[..i] + s[i..];
    ValAppend(s[..i], s[i..]);
  }

  lemma {:induction false} ValBound(s: seq<Word>)
    ensures Val(s) < Pow2(64 * |s|)
  {
    if |s| > 0 {
      ValBound(s[1..]);
      Pow2Sizes();
      Pow2Add(64, 64 * (|s| - 1));
    }
  }

  lemma {:induction false} ValZeros(s: seq<Word>)
    requires forall i :: 0 <= i < |s| ==> s[i] == 0
    ensures Val(s) == 0
  {
    if |s| > 0 {
      ValZeros(s[1..]);
    }
  }

  lemma {:induction false} ValIsZero(s: seq<Word>)
    ensures Val(s) == 0 <==> forall i :: 0 <= i < |s| ==> s[i] == 0
  {
    if |s| > 0 {
      ValIsZero(s[1..]);
      if Val(s) == 0 {
        forall i | 0 <= i < |s| ensures s[i] == 0 {
          if i > 0 { assert s[i] == s[1..][i - 1]; }
        }
      } else if forall i :: 0 <= i < |s| ==> s[i] == 0 {
        ValZeros(s);
      }
    }
  }

  lemma OrderStep(low: nat, x: nat, y: nat, p: nat)
    requires low < p && x < y
    ensures low + p * x < p * y
  {
    MulMono(x + 1, y, p);
  }

  /** The most significant word that differs decides the order. */
  lemma ValOrder(a: seq<Word>, b: seq<Word>, i: nat)
    requires |a| == |b| && i < |a| && a[i] < b[i] && a[i + 1..] == b[i + 1..]
    ensures Val(a) < Val(b)
  {
    ValSplit(a, i + 1);
    ValSplit(b, i + 1);
    ValPrefix(a, i);
    ValPrefix(b, i);
    ValBound(a[..i]);
    OrderStep(Val(a[..i]), a[i], b[i], Pow2(64 * i));
  }

  lemma {:induction false} ValInjective(a: seq<Word>, b: seq<Word>)
    requires |a| == |b| && Val(a) == Val(b)
    ensures a == b
  {
    if |a| > 0 {
      assert a[0] == b[0] && Val(a[1..]) == Val(b[1..]);
      ValInjective(a[1..], b[1..]);
      assert a == [a[0]] + a[1..] && b == [b[0]] + b[1..];
    }
  }
}
