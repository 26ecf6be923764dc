/**
 * Growing the tree of the indirect index: new blocks, new links and new levels, and why none of them
 * moves an identifier that had its slot before.
 */
module IndirectGrowth {
  import opened Bits
  import opened Results
  import opened IndirectTree

  type Base = map<int, nat>

  // ---- the two elementary changes ----

  function Zeros(count: nat): seq<int> {
    seq(count, (i: nat) => NULL_FILE_ADDR)
  }

  lemma AddKeeps(blocks: Blocks, count: nat, base: Base, c: int, b: IndexBlock, start: nat)
    requires Based(blocks, count, base) && c !in blocks && c > MISSING_FILE_ADDR
    requires Shaped(count, b) && b.refs == Zeros(count)
    ensures Based(blocks[c := b], count, base[c := start])
  {
    hide Pow;
    var blocks', base' := blocks[c := b], base[c := start];
    forall at, k | at in base' && blocks'[at].Tind? && 0 <= k < count ensures ChildAt(blocks', count, base', at, k) {
      if at != c {
        assert ChildAt(blocks, count, base, at, k);
      }
    }
  }

  /** Reference k of TIND block b set to c. */
  function Linked(blocks: Blocks, b: int, k: nat, c: int): Blocks
    requires b in blocks && blocks[b].Tind? && k < |blocks[b].refs|
  {
    blocks[b := Tind(blocks[b].level, blocks[b].refs[k := c])]
  }

  lemma LinkedIs(blocks: Blocks, b: int, k: nat, c: int)
    requires b in blocks && blocks[b].Tind? && k < |blocks[b].refs|
    ensures Linked(blocks, b, k, c).Keys == blocks.Keys
    ensures Linked(blocks, b, k, c)[b] == Tind(blocks[b].level, blocks[b].refs[k := c])
  {
  }

  lemma LinkKeeps(blocks: Blocks, count: nat, base: Base, b: int, k: nat, c: int)
    requires Based(blocks, count, base) && b in base && blocks[b].Tind? && k < count && c in base
    requires (blocks[c].Tind? ==> blocks[c].level + 1 == blocks[b].level)
    requires base[c] == base[b] + k * Pow(count, blocks[b].level)
    ensures k < |blocks[b].refs| && Based(Linked(blocks, b, k, c), count, base)
  {
    hide Pow;
    assert Shaped(count, blocks[b]);
    var blocks' := Linked(blocks, b, k, c);
    forall at, j | at in base && blocks'[at].Tind? && 0 <= j < count ensures ChildAt(blocks', count, base, at, j) {
      assert ChildAt(blocks, count, base, at, j);
    }
  }

  // ---- the way down ----

  /** The descent for identifier m from one block comes by another with identifier n. */
  ghost predicate Leads(blocks: Blocks, count: nat, base: Base, from: int, m: nat, at: int, n: nat)
    requires Based(blocks, count, base) && from in base
    decreases LevelOf(blocks[from])
  {
    || (from == at && m == n)
    || (blocks[from].Tind? && SlotOf(count, blocks[from].level, m) < count &&
        assert ChildAt(blocks, count, base, from, SlotOf(count, blocks[from].level, m));
        var c := blocks[from].refs[SlotOf(count, blocks[from].level, m)];
        c != NULL_FILE_ADDR && Leads(blocks, count, base, c, RestOf(count, blocks[from].level, m), at, n))
  }

  lemma LeadsHere(blocks: Blocks, count: nat, base: Base, at: int, n: nat)
    requires Based(blocks, count, base) && at in base
    ensures Leads(blocks, count, base, at, n, at, n)
  {
  }

  lemma {:induction false} LeadsOn(blocks: Blocks, count: nat, base: Base, from: int, m: nat, at: int, n: nat)
    requires Based(blocks, count, base) && from in base && Leads(blocks, count, base, from, m, at, n)
    ensures at in base && Leaf(blocks, count, base, from, m) == Leaf(blocks, count, base, at, n)
    ensures base[from] + m == base[at] + n
    ensures from == at || (blocks[from].Tind? && LevelOf(blocks[at]) < blocks[from].level)
    decreases LevelOf(blocks[from])
  {
    hide Pow;
    if !(from == at && m == n) {
      var level := blocks[from].level;
      var k := SlotOf(count, level, m);
      assert ChildAt(blocks, count, base, from, k);
      LeadsOn(blocks, count, base, blocks[from].refs[k], RestOf(count, level, m), at, n);
      SlotAndRest(count, level, m);
    }
  }

  lemma SlotAndRest(count: nat, level: nat, n: nat)
    requires count > 0
    ensures n == SlotOf(count, level, n) * Pow(count, level) + RestOf(count, level, n)
  {
    DivModIdentity(n, Pow(count, level));
  }

  /** One step further down. */
  lemma {:induction false} LeadsStep(blocks: Blocks, count: nat, base: Base, from: int, m: nat, at: int, n: nat)
    requires Based(blocks, count, base) && from in base && Leads(blocks, count, base, from, m, at, n)
    requires at in base && blocks[at].Tind? && SlotOf(count, blocks[at].level, n) < |blocks[at].refs|
    requires blocks[at].refs[SlotOf(count, blocks[at].level, n)] != NULL_FILE_ADDR
    ensures Leads(blocks, count, base, from, m, blocks[at].refs[SlotOf(count, blocks[at].level, n)],
                  RestOf(count, blocks[at].level, n))
    decreases LevelOf(blocks[from])
  {
    hide Pow, SlotOf, RestOf;
    assert Shaped(count, blocks[at]);
    if from == at && m == n {
      assert ChildAt(blocks, count, base, at, SlotOf(count, blocks[at].level, n));
    } else {
      var k := SlotOf(count, blocks[from].level, m);
      assert ChildAt(blocks, count, base, from, k);
      LeadsStep(blocks, count, base, blocks[from].refs[k], RestOf(count, blocks[from].level, m), at, n);
    }
  }

  // ---- the digits of an identifier ----

  /** A block starts at a multiple of what it holds when full. */
  ghost predicate Aligned(blocks: Blocks, count: nat, base: Base, at: int)
    requires at in blocks && at in base && count > 0
  {
    base[at] % Pow(count, LevelOf(blocks[at]) + 1) == 0
  }

  lemma ChildAligned(start: nat, k: nat, count: nat, level: nat, below: nat)
    requires count > 0 && below <= level && start % Pow(count, level + 1) == 0
    ensures (start + k * Pow(count, level)) % Pow(count, below) == 0
  {
    PowSplit(count, below, level - below);
    var p, rest := Pow(count, below), Pow(count, level - below);
    var q := start / Pow(count, level + 1);
    DivModIdentity(start, Pow(count, level + 1));
    Multiples(q, k, count, p, rest);
    DivModUnique(start + k * Pow(count, level), (q * count + k) * rest, 0, p);
  }

  lemma Multiples(q: nat, k: nat, count: nat, p: nat, rest: nat)
    ensures q * (count * (p * rest)) + k * (p * rest) == ((q * count + k) * rest) * p
  {
    MulAssoc(q, count, p * rest);
    MulDist(q * count, k, p * rest);
    MulAssoc(q * count + k, rest, p);
  }

  lemma {:induction false} PowSplit(b: nat, i: nat, j: nat)
    ensures Pow(b, i + j) == Pow(b, i) * Pow(b, j)
  {
    if i > 0 {
      PowSplit(b, i - 1, j);
      assert Pow(b, i + j) == b * Pow(b, i - 1 + j);
      MulAssoc(b, Pow(b, i - 1), Pow(b, j));
    }
  }

  /** Every block on the way down from an aligned one is aligned. */
  lemma {:induction false} LeadsAligned(blocks: Blocks, count: nat, base: Base, from: int, m: nat, at: int, n: nat)
    requires Based(blocks, count, base) && from in base && Leads(blocks, count, base, from, m, at, n)
    requires Aligned(blocks, count, base, from)
    ensures at in base && Aligned(blocks, count, base, at)
    decreases LevelOf(blocks[from])
  {
    hide Pow, SlotOf, RestOf;
    if !(from == at && m == n) {
      var level := blocks[from].level;
      var k := SlotOf(count, level, m);
      assert ChildAt(blocks, count, base, from, k);
      var c := blocks[from].refs[k];
      ChildAligned(base[from], k, count, level, LevelOf(blocks[c]) + 1);
      LeadsAligned(blocks, count, base, c, RestOf(count, level, m), at, n);
    }
  }

  /**
   * Going down from the root, the slot taken at every level is that digit of the identifier in base
   * `count`, and the slot taken in the INDR block is the last one.
   */
  lemma DescentDigits(blocks: Blocks, count: nat, base: Base, root: int, m: nat, at: int, n: nat)
    requires Based(blocks, count, base) && root in base && base[root] == 0
    requires Leads(blocks, count, base, root, m, at, n)
    ensures at in base
    ensures blocks[at].Tind? && SlotOf(count, blocks[at].level, n) < count ==>
              SlotOf(count, blocks[at].level, n) == m / Pow(count, blocks[at].level) % count
    ensures blocks[at].Indr? && n < count ==> n == m % count
  {
    hide Leads;
    DivModUnique(0, 0, 0, Pow(count, LevelOf(blocks[root]) + 1));
    LeadsAligned(blocks, count, base, root, m, at, n);
    LeadsOn(blocks, count, base, root, m, at, n);
    var level := LevelOf(blocks[at]);
    if SlotOf(count, level, n) < count {
      SlotInBlock(count, level, n);
      SlotIsDigit(count, level, base[at], n);
    }
    LowestDigit(count, n);
    LowestDigit(count, m);
  }

  lemma SlotInBlock(count: nat, level: nat, n: nat)
    requires count > 0 && SlotOf(count, level, n) < count
    ensures n < Pow(count, level + 1)
  {
    SlotAndRest(count, level, n);
    MulMono(SlotOf(count, level, n) + 1, count, Pow(count, level));
    MulDist(SlotOf(count, level, n), 1, Pow(count, level));
  }

  lemma LowestDigit(count: nat, n: nat)
    requires count > 0
    ensures SlotOf(count, 0, n) == n
  {
    DivModUnique(n, n, 0, 1);
  }

  /** The slot an identifier ends in is its last digit, and its block starts at the identifier without that digit. */
  lemma LeafDigit(blocks: Blocks, count: nat, base: Base, root: int, m: nat)
    requires Based(blocks, count, base) && root in base && base[root] == 0 && Leaf(blocks, count, base, root, m).Some?
    ensures var (b, s) := Leaf(blocks, count, base, root, m).value;
            b in base && s == m % count && base[b] == m - m % count
  {
    LeafRecovers(blocks, count, base, root, m);
    var (b, s) := Leaf(blocks, count, base, root, m).value;
    LeafLed(blocks, count, base, root, m);
    DescentDigits(blocks, count, base, root, m, b, s);
  }

  /** The way down ends in the leaf. */
  lemma {:induction false} LeafLed(blocks: Blocks, count: nat, base: Base, from: int, m: nat)
    requires Based(blocks, count, base) && from in base && Leaf(blocks, count, base, from, m).Some?
    ensures var (b, s) := Leaf(blocks, count, base, from, m).value;
            Leads(blocks, count, base, from, m, b, s) && b in blocks && blocks[b].Indr? && s < count
    decreases LevelOf(blocks[from])
  {
    hide Pow;
    if blocks[from].Tind? {
      var k := SlotOf(count, blocks[from].level, m);
      assert ChildAt(blocks, count, base, from, k);
      LeafLed(blocks, count, base, blocks[from].refs[k], RestOf(count, blocks[from].level, m));
    }
  }

  /** The way to a block does not depend on that block. */
  lemma {:induction false} LeadsKept(blocks: Blocks, base: Base, blocks': Blocks, base': Base, count: nat,
                                     from: int, m: nat, at: int, n: nat)
    requires Based(blocks, count, base) && Based(blocks', count, base') && from in base
    requires Leads(blocks, count, base, from, m, at, n)
    requires forall c :: c in base ==> c in base' && (c != at ==> blocks'[c] == blocks[c])
    ensures from in base' && Leads(blocks', count, base', from, m, at, n)
    decreases LevelOf(blocks[from])
  {
    hide Pow, SlotOf, RestOf;
    if !(from == at && m == n) {
      var k := SlotOf(count, blocks[from].level, m);
      LeadsOn(blocks, count, base, from, m, at, n);
      assert ChildAt(blocks, count, base, from, k);
      var c := blocks[from].refs[k];
      LeadsOn(blocks, count, base, c, RestOf(count, blocks[from].level, m), at, n);
      assert from != at;
      LeadsKept(blocks, base, blocks', base', count, c, RestOf(count, blocks[from].level, m), at, n);
      assert ChildAt(blocks', count, base', from, k);
    }
  }

  // ---- what growth keeps ----

  /** Block t finds everything block x found before. */
  ghost predicate Covers(blocks: Blocks, base: Base, blocks': Blocks, base': Base, count: nat, x: int, t: int)
    requires Based(blocks, count, base) && Based(blocks', count, base') && x in base
  {
    t in base' && forall n: nat :: Leaf(blocks, count, base, x, n).Some? ==>
                    Leaf(blocks', count, base', t, n) == Leaf(blocks, count, base, x, n)
  }

  /** Only reference k of block b differs, and nothing is lost behind it. */
  ghost predicate Regrown(blocks: Blocks, base: Base, blocks': Blocks, base': Base, count: nat, b: int, k: nat)
    requires Based(blocks, count, base) && Based(blocks', count, base')
  {
    && b in base && blocks[b].Tind? && k < |blocks[b].refs|
    && (forall c :: c in base ==> c in base' && (c != b ==> blocks'[c] == blocks[c]))
    && blocks'[b].Tind? && blocks'[b].level == blocks[b].level && |blocks'[b].refs| == |blocks[b].refs|
    && (forall j :: 0 <= j < |blocks[b].refs| && j != k ==> blocks'[b].refs[j] == blocks[b].refs[j])
    && (blocks[b].refs[k] != NULL_FILE_ADDR ==>
          blocks[b].refs[k] in base && blocks'[b].refs[k] != NULL_FILE_ADDR &&
          Covers(blocks, base, blocks', base', count, blocks[b].refs[k], blocks'[b].refs[k]))
  }

  lemma {:induction false} RegrownKeeps(blocks: Blocks, base: Base, blocks': Blocks, base': Base, count: nat,
                                        b: int, k: nat, at: int, n: nat)
    requires Based(blocks, count, base) && Based(blocks', count, base') && at in base
    requires Regrown(blocks, base, blocks', base', count, b, k) && Leaf(blocks, count, base, at, n).Some?
    ensures at in base' && Leaf(blocks', count, base', at, n) == Leaf(blocks, count, base, at, n)
    decreases LevelOf(blocks[at])
  {
    hide Pow, SlotOf, RestOf;
    LeafStep(blocks, count, base, at, n);
    LeafStep(blocks', count, base', at, n);
    if blocks[at].Tind? {
      var level := blocks[at].level;
      var j := SlotOf(count, level, n);
      var c := blocks[at].refs[j];
      if !(at == b && j == k) {
        RegrownKeeps(blocks, base, blocks', base', count, b, k, c, RestOf(count, level, n));
      }
    }
  }

  /** Every identifier keeps its slot. */
  ghost predicate Kept(blocks: Blocks, base: Base, root: int, blocks': Blocks, base': Base, root': int, count: nat) {
    && Based(blocks, count, base) && Based(blocks', count, base')
    && (forall c :: c in base ==> c in base' && (blocks[c].Indr? ==> blocks'[c] == blocks[c]))
    && (root != NULL_FILE_ADDR ==>
          root in base && root' in base' && Covers(blocks, base, blocks', base', count, root, root'))
  }

  /** So what is stored for it stays, too. */
  lemma StoredKept(blocks: Blocks, base: Base, root: int, blocks': Blocks, base': Base, root': int, count: nat, n: nat)
    requires Kept(blocks, base, root, blocks', base', root', count) && root != NULL_FILE_ADDR
    ensures Stored(blocks, count, base, root, n).Some? ==>
              Stored(blocks', count, base', root', n) == Stored(blocks, count, base, root, n)
  {
    if Leaf(blocks, count, base, root, n).Some? {
      LeafRecovers(blocks, count, base, root, n);
    }
  }

  lemma KeptTrans(blocks: Blocks, base: Base, root: int, blocks1: Blocks, base1: Base, root1: int,
                  blocks2: Blocks, base2: Base, root2: int, count: nat)
    requires Kept(blocks, base, root, blocks1, base1, root1, count) && root1 != NULL_FILE_ADDR
    requires Kept(blocks1, base1, root1, blocks2, base2, root2, count)
    ensures Kept(blocks, base, root, blocks2, base2, root2, count)
  {
    hide Leaf, Based;
  }

  // ---- arithmetic of the levels ----

  lemma PowOne(count: nat)
    ensures Pow(count, 0) == 1 && Pow(count, 1) == count && Pow(count, 2) == count * count
  {
    assert Pow(count, 1) == count * Pow(count, 0);
    assert Pow(count, 2) == count * Pow(count, 1);
  }

  lemma {:induction false} PowMono(count: nat, i: nat, j: nat)
    requires count > 0 && i <= j
    ensures Pow(count, i) <= Pow(count, j)
    decreases j
  {
    if i < j {
      PowMono(count, i, j - 1);
      MulMono(1, count, Pow(count, j - 1));
    }
  }

  lemma SlotIsZero(count: nat, level: nat, n: nat)
    requires count > 0 && n < Pow(count, level)
    ensures SlotOf(count, level, n) == 0 && RestOf(count, level, n) == n
  {
    DivModUnique(n, 0, n, Pow(count, level));
  }

  /** The first identifier past a full slot 0 is the first of slot 1. */
  lemma SlotIsOne(count: nat, level: nat)
    requires count > 0
    ensures SlotOf(count, level, Pow(count, level)) == 1 && RestOf(count, level, Pow(count, level)) == 0
  {
    DivModUnique(Pow(count, level), 1, 0, Pow(count, level));
  }

  /** Neighbours in one slot. */
  lemma SlotBefore(count: nat, level: nat, n: nat)
    requires count > 0 && RestOf(count, level, n) > 0
    ensures n > 0 && SlotOf(count, level, n - 1) == SlotOf(count, level, n)
    ensures RestOf(count, level, n - 1) == RestOf(count, level, n) - 1
  {
    var p := Pow(count, level);
    SlotAndRest(count, level, n);
    DivModUnique(n - 1, n / p, n % p - 1, p);
  }

  /** A slot below `count` is an identifier below count^(level + 1). */
  lemma SlotBound(count: nat, level: nat, n: nat)
    requires count > 0
    ensures SlotOf(count, level, n) < count <==> n < Pow(count, level + 1)
  {
    var p := Pow(count, level);
    SlotAndRest(count, level, n);
    if n / p < count {
      MulMono(n / p + 1, count, p);
      MulDist(n / p, 1, p);
    } else {
      MulMono(count, n / p, p);
    }
  }

  lemma LeafBound(blocks: Blocks, count: nat, base: Base, at: int, n: nat)
    requires Based(blocks, count, base) && at in base && Leaf(blocks, count, base, at, n).Some?
    ensures n < Pow(count, LevelOf(blocks[at]) + 1)
  {
    hide Pow, SlotOf, RestOf;
    LeafStep(blocks, count, base, at, n);
    PowOne(count);
    if blocks[at].Tind? {
      SlotBound(count, blocks[at].level, n);
    }
  }

  // ---- a new INDR block in an empty slot ----

  ghost function NewLeaf(blocks: Blocks, count: nat, at: int, k: nat, c: int): Blocks
    requires at in blocks && blocks[at].Tind? && k < |blocks[at].refs| && c != at
  {
    Linked(blocks[c := Indr(Zeros(count))], at, k, c)
  }

  lemma NewLeafBased(blocks: Blocks, count: nat, base: Base, at: int, k: nat, c: int)
    requires Based(blocks, count, base) && at in base && blocks[at].Tind? && k < count
    requires c !in blocks && c > MISSING_FILE_ADDR
    ensures k < |blocks[at].refs|
    ensures Based(NewLeaf(blocks, count, at, k, c), count, base[c := base[at] + k * Pow(count, blocks[at].level)])
  {
    hide Pow;
    assert Shaped(count, blocks[at]);
    var start := base[at] + k * Pow(count, blocks[at].level);
    AddKeeps(blocks, count, base, c, Indr(Zeros(count)), start);
    LinkKeeps(blocks[c := Indr(Zeros(count))], count, base[c := start], at, k, c);
  }

  lemma GrowLeaf(blocks: Blocks, count: nat, base: Base, root: int, n: nat, at: int, m: nat, c: int)
    returns (base': Base)
    requires Based(blocks, count, base) && root in base && Leads(blocks, count, base, root, n, at, m)
    requires at in base && blocks[at].Tind? && SlotOf(count, blocks[at].level, m) < |blocks[at].refs|
    requires blocks[at].refs[SlotOf(count, blocks[at].level, m)] == NULL_FILE_ADDR
    requires RestOf(count, blocks[at].level, m) < count && c !in blocks && c > MISSING_FILE_ADDR
    ensures var k := SlotOf(count, blocks[at].level, m);
            && base' == base[c := base[at] + k * Pow(count, blocks[at].level)]
            && Based(NewLeaf(blocks, count, at, k, c), count, base')
            && Kept(blocks, base, root, NewLeaf(blocks, count, at, k, c), base', root, count)
            && Leaf(NewLeaf(blocks, count, at, k, c), count, base', root, n) ==
                Some((c, RestOf(count, blocks[at].level, m)))
  {
    hide Pow, SlotOf, RestOf;
    assert Shaped(count, blocks[at]);
    var k := SlotOf(count, blocks[at].level, m);
    var blocks' := NewLeaf(blocks, count, at, k, c);
    NewLeafBased(blocks, count, base, at, k, c);
    base' := base[c := base[at] + k * Pow(count, blocks[at].level)];
    assert Regrown(blocks, base, blocks', base', count, at, k);
    forall p: nat | Leaf(blocks, count, base, root, p).Some?
      ensures Leaf(blocks', count, base', root, p) == Leaf(blocks, count, base, root, p)
    {
      RegrownKeeps(blocks, base, blocks', base', count, at, k, root, p);
    }
    LeadsKept(blocks, base, blocks', base', count, root, n, at, m);
    LeadsOn(blocks', count, base', root, n, at, m);
    LeafStep(blocks', count, base', at, m);
    LeafStep(blocks', count, base', c, RestOf(count, blocks[at].level, m));
  }

  // ---- a new block on top ----

  ghost function NewTop(blocks: Blocks, count: nat, root: int, top: int): Blocks
    requires root in blocks && count > 0
  {
    blocks[top := Tind(LevelOf(blocks[root]) + 1, Zeros(count)[0 := root])]
  }

  lemma NewTopIs(blocks: Blocks, count: nat, root: int, top: int)
    requires root in blocks && count > 0
    ensures Linked(blocks[top := Tind(LevelOf(blocks[root]) + 1, Zeros(count))], top, 0, root) ==
            NewTop(blocks, count, root, top)
    ensures NewTop(blocks, count, root, top).Keys == blocks.Keys + {top}
    ensures var b := NewTop(blocks, count, root, top)[top];
            && |b.refs| == count && b.Tind? && b.level == LevelOf(blocks[root]) + 1
            && (count >= 2 ==> b.refs[1] == NULL_FILE_ADDR)
  {
  }

  lemma GrowTop(blocks: Blocks, count: nat, base: Base, root: int, top: int)
    requires Based(blocks, count, base) && root in base && base[root] == 0
    requires top !in blocks && top > MISSING_FILE_ADDR && Pow(count, LevelOf(blocks[root]) + 1) < TWO_64
    ensures Based(NewTop(blocks, count, root, top), count, base[top := 0])
    ensures Kept(blocks, base, root, NewTop(blocks, count, root, top), base[top := 0], top, count)
  {
    hide Pow, SlotOf, RestOf;
    var level := LevelOf(blocks[root]) + 1;
    var blocks1, base' := blocks[top := Tind(level, Zeros(count))], base[top := 0];
    AddKeeps(blocks, count, base, top, Tind(level, Zeros(count)), 0);
    LinkKeeps(blocks1, count, base', top, 0, root);
    var blocks' := NewTop(blocks, count, root, top);
    assert blocks' == Linked(blocks1, top, 0, root);
    forall n: nat | Leaf(blocks, count, base, root, n).Some?
      ensures Leaf(blocks', count, base', top, n) == Leaf(blocks, count, base, root, n)
    {
      LeafBound(blocks, count, base, root, n);
      SlotIsZero(count, level, n);
      LeafStep(blocks', count, base', top, n);
      LeafFrame(blocks, base, blocks', base', count, root, n);
    }
  }

  lemma {:induction false} LeafFrame(blocks: Blocks, base: Base, blocks': Blocks, base': Base, count: nat, at: int,
                                     n: nat)
    requires Based(blocks, count, base) && Based(blocks', count, base') && at in base
    requires forall c :: c in base ==> c in base' && blocks'[c] == blocks[c]
    ensures Leaf(blocks', count, base', at, n) == Leaf(blocks, count, base, at, n)
    decreases LevelOf(blocks[at])
  {
    hide Pow, SlotOf, RestOf;
    LeafStep(blocks, count, base, at, n);
    LeafStep(blocks', count, base', at, n);
    if blocks[at].Tind? {
      var k := SlotOf(count, blocks[at].level, n);
      if k < count && blocks[at].refs[k] != NULL_FILE_ADDR {
        LeafFrame(blocks, base, blocks', base', count, blocks[at].refs[k], RestOf(count, blocks[at].level, n));
      }
    }
  }

  // ---- the levels that are missing above a full INDR block ----

  /** What the new block ts[j] holds while the levels down to `level` are being added: the next one in slot 0. */
  function SpineRefs(count: nat, ts: seq<int>, j: nat): seq<int>
    requires j < |ts| && count > 0
  {
    if j + 1 < |ts| then Zeros(count)[0 := ts[j + 1]] else Zeros(count)
  }

  /**
   * Slot k of block b held the INDR block x; it now holds the first of the new blocks ts, one for each
   * level from the one below b down to `level`.
   */
  ghost predicate Spine(blocks0: Blocks, base0: Base, blocks: Blocks, base: Base, count: nat, b: int, k: nat,
                        ts: seq<int>, level: nat)
  {
    && Based(blocks0, count, base0) && Based(blocks, count, base)
    && b in base0 && blocks0[b].Tind? && k < |blocks0[b].refs| && blocks0[b].refs[k] != NULL_FILE_ADDR
    && 1 <= level && |ts| + level == blocks0[b].level
    && (forall c :: c in base0 ==> c in base && base[c] == base0[c] && (c != b ==> blocks[c] == blocks0[c]))
    && blocks[b] == Tind(blocks0[b].level, if ts == [] then blocks0[b].refs else blocks0[b].refs[k := ts[0]])
    && (forall j :: 0 <= j < |ts| ==> SpineAt(base0, blocks, base, count, ts, j, blocks0[b].refs[k], blocks0[b].level))
  }

  ghost predicate SpineAt(base0: Base, blocks: Blocks, base: Base, count: nat, ts: seq<int>, j: nat, x: int, top: nat)
    requires j < |ts| <= top && count > 0
  {
    && ts[j] in base && ts[j] in blocks && ts[j] !in base0 && x in base && base[ts[j]] == base[x]
    && blocks[ts[j]] == Tind(top - 1 - j, SpineRefs(count, ts, j))
  }

  function LastOf(b: int, ts: seq<int>): int {
    if ts == [] then b else ts[|ts| - 1]
  }

  /** One more level. */
  lemma SpineGrows(blocks0: Blocks, base0: Base, blocks: Blocks, base: Base, count: nat, b: int, k: nat,
                   ts: seq<int>, level: nat, c: int) returns (blocks': Blocks, base': Base)
    requires Spine(blocks0, base0, blocks, base, count, b, k, ts, level) && level >= 2
    requires c !in blocks && c > MISSING_FILE_ADDR
    ensures LastOf(b, ts) in blocks && blocks[LastOf(b, ts)].Tind? && blocks[LastOf(b, ts)].level == level
    ensures |blocks[LastOf(b, ts)].refs| == count && LastOf(b, ts) != c
    ensures blocks' == Linked(blocks[c := Tind(level - 1, Zeros(count))], LastOf(b, ts), if ts == [] then k else 0, c)
    ensures Spine(blocks0, base0, blocks', base', count, b, k, ts + [c], level - 1)
    ensures base'.Keys == base.Keys + {c} && (LastOf(b, ts) in base ==> blocks'.Keys == blocks.Keys + {c})
    ensures LastOf(b, ts) in base
  {
    hide Pow, Zeros;
    var cur, slot, x := LastOf(b, ts), if ts == [] then k else 0, blocks0[b].refs[k];
    assert ChildAt(blocks0, count, base0, b, k);
    assert ts != [] ==> SpineAt(base0, blocks, base, count, ts, |ts| - 1, x, blocks0[b].level);
    assert Shaped(count, blocks[cur]);
    PowBelow(count, level);
    ZerosAre(count);
    base' := base[c := base[x]];
    var blocks1 := blocks[c := Tind(level - 1, Zeros(count))];
    AddKeeps(blocks, count, base, c, Tind(level - 1, Zeros(count)), base[x]);
    LinkKeeps(blocks1, count, base', cur, slot, c);
    blocks' := Linked(blocks1, cur, slot, c);
    var ts' := ts + [c];
    forall j | 0 <= j < |ts'| ensures SpineAt(base0, blocks', base', count, ts', j, x, blocks0[b].level) {
      if j < |ts| {
        assert SpineAt(base0, blocks, base, count, ts, j, x, blocks0[b].level);
      }
    }
  }

  lemma ZerosAre(count: nat)
    ensures |Zeros(count)| == count && forall i :: 0 <= i < count ==> Zeros(count)[i] == NULL_FILE_ADDR
  {
  }

  lemma PowBelow(count: nat, level: nat)
    requires count > 0 && level >= 1 && Pow(count, level) < TWO_64
    ensures Pow(count, level - 1) < TWO_64
  {
    PowMono(count, level - 1, level);
  }

  /** The new block ts[j] is of its level and leads to the next one, the last one to x, in slot 0. */
  ghost predicate SpineLink(blocks: Blocks, base: Base, ts: seq<int>, x: int, j: nat)
    requires j < |ts|
  {
    && ts[j] in base && ts[j] in blocks && blocks[ts[j]].Tind? && blocks[ts[j]].level == |ts| - j
    && |blocks[ts[j]].refs| >= 2 && blocks[ts[j]].refs[0] == if j + 1 < |ts| then ts[j + 1] else x
  }

  /** Down the new blocks through their slots 0. */
  lemma {:induction false} SpineLeads(blocks: Blocks, count: nat, base: Base, ts: seq<int>, x: int, i: nat, m: nat)
    requires Based(blocks, count, base) && i < |ts| && m < Pow(count, 2)
    requires forall j :: 0 <= j < |ts| ==> SpineLink(blocks, base, ts, x, j)
    ensures ts[i] in base && ts[|ts| - 1] in base
    ensures Leaf(blocks, count, base, ts[i], m) == Leaf(blocks, count, base, ts[|ts| - 1], m)
    decreases |ts| - i
  {
    hide Pow, SlotOf, RestOf;
    assert SpineLink(blocks, base, ts, x, i);
    if i + 1 < |ts| {
      PowMono(count, 2, |ts| - i);
      SlotIsZero(count, |ts| - i, m);
      LeafStep(blocks, count, base, ts[i], m);
      SpineLeads(blocks, count, base, ts, x, i + 1, m);
    }
  }

  /** The full INDR block goes to slot 0 of the lowest new level, a new one to slot 1. */
  ghost function SpineDone(blocks: Blocks, count: nat, cur: int, x: int, c: int): Blocks
    requires cur in blocks && blocks[cur].Tind? && |blocks[cur].refs| >= 2 && c != cur
  {
    NewLeaf(Linked(blocks, cur, 0, x), count, cur, 1, c)
  }

  lemma SpineEnds(blocks0: Blocks, base0: Base, blocks: Blocks, base: Base, count: nat, b: int, k: nat, ts: seq<int>,
                  c: int)
    returns (x: int, cur: int, base': Base)
    requires Spine(blocks0, base0, blocks, base, count, b, k, ts, 1) && |ts| > 0 && count >= 2
    requires blocks0[b].refs[k] in blocks0 && blocks0[blocks0[b].refs[k]].Indr? && c !in blocks && c > MISSING_FILE_ADDR
    ensures x == blocks0[b].refs[k] && cur == ts[|ts| - 1] && cur in base && cur in blocks && blocks[cur].Tind?
    ensures Shaped(count, blocks[cur]) && |blocks[cur].refs| == count && blocks[cur].level == 1 && c != cur
      && x in base && blocks[x].Indr?
    ensures Based(Linked(blocks, cur, 0, x), count, base) && base' == base[c := base[cur] + count]
    ensures Based(SpineDone(blocks, count, cur, x, c), count, base')
    ensures SpineShape(SpineDone(blocks, count, cur, x, c), base', count, ts, x, c)
    ensures base[cur] == base[x] && cur !in base0 && count + 1 < TWO_64
    ensures forall d :: d in base0 ==> d in base' && (d != b ==> SpineDone(blocks, count, cur, x, c)[d] == blocks0[d])
    ensures SpineDone(blocks, count, cur, x, c)[b] == Tind(blocks0[b].level, blocks0[b].refs[k := ts[0]])
  {
    hide Pow, Zeros;
    ZerosAre(count);
    PowOne(count);
    assert Shaped(count, blocks0[b]);
    PowMono(count, 2, blocks0[b].level);
    MulMono(2, count, count);
    x, cur := blocks0[b].refs[k], ts[|ts| - 1];
    assert ChildAt(blocks0, count, base0, b, k);
    assert SpineAt(base0, blocks, base, count, ts, |ts| - 1, x, blocks0[b].level);
    assert Shaped(count, blocks[cur]);
    LinkKeeps(blocks, count, base, cur, 0, x);
    var blocks1 := Linked(blocks, cur, 0, x);
    NewLeafBased(blocks1, count, base, cur, 1, c);
    base' := base[c := base[cur] + count];
    var blocks' := SpineDone(blocks, count, cur, x, c);
    forall j | 0 <= j < |ts| ensures SpineLink(blocks', base', ts, x, j) {
      assert SpineAt(base0, blocks, base, count, ts, j, x, blocks0[b].level);
    }
  }

  ghost predicate SpineShape(blocks: Blocks, base: Base, count: nat, ts: seq<int>, x: int, c: int)
    requires |ts| > 0
  {
    && (forall j :: 0 <= j < |ts| ==> SpineLink(blocks, base, ts, x, j))
    && ts[|ts| - 1] in blocks && |blocks[ts[|ts| - 1]].refs| >= 2 && blocks[ts[|ts| - 1]].refs[1] == c
    && x in base && x in blocks && blocks[x].Indr? && c in base && c in blocks && blocks[c].Indr?
    && x != NULL_FILE_ADDR && c != NULL_FILE_ADDR
  }

  /** What block x found and the identifier behind it are found by way of the new blocks. */
  lemma SpineFinds(blocks: Blocks, base: Base, count: nat, ts: seq<int>, x: int, c: int, m: nat)
    requires Based(blocks, count, base) && |ts| > 0 && SpineShape(blocks, base, count, ts, x, c) && count >= 2
      && m <= count
    ensures ts[0] in base
    ensures Leaf(blocks, count, base, ts[0], m) == Some(if m < count then (x, m) else (c, 0))
  {
    hide Pow, SlotOf, RestOf;
    PowOne(count);
    MulMono(2, count, count);
    var cur := ts[|ts| - 1];
    assert SpineLink(blocks, base, ts, x, |ts| - 1);
    SpineLeads(blocks, count, base, ts, x, 0, m);
    LeafStep(blocks, count, base, cur, m);
    if m < count {
      SlotIsZero(count, 1, m);
      LeafStep(blocks, count, base, x, m);
    } else {
      SlotIsOne(count, 1);
      LeafStep(blocks, count, base, c, 0);
    }
  }

  /** The way to the new block goes through slot k of block b and down the new levels; all other ways are as before. */
  lemma GrowSpine(blocks0: Blocks, base0: Base, blocks: Blocks, base: Base, count: nat, root: int, n: nat, b: int,
                  m: nat, ts: seq<int>, x: int, c: int)
    requires Based(blocks0, count, base0) && Based(blocks, count, base) && count >= 2 && root in base0
    requires Leads(blocks0, count, base0, root, n, b, m) && b in base0 && blocks0[b].Tind?
    requires SlotOf(count, blocks0[b].level, m) < |blocks0[b].refs| && RestOf(count, blocks0[b].level, m) == count
    requires x == blocks0[b].refs[SlotOf(count, blocks0[b].level, m)] && x in base0 && blocks0[x].Indr?
    requires |ts| > 0 && SpineShape(blocks, base, count, ts, x, c)
    requires forall d :: d in base0 ==> d in base && (d != b ==> blocks[d] == blocks0[d])
    requires blocks[b] == Tind(blocks0[b].level, blocks0[b].refs[SlotOf(count, blocks0[b].level, m) := ts[0]])
    ensures Kept(blocks0, base0, root, blocks, base, root, count)
    ensures Leaf(blocks, count, base, root, n) == Some((c, 0))
  {
    hide Pow, SlotOf, RestOf, SpineShape;
    var k := SlotOf(count, blocks0[b].level, m);
    SpineFinds(blocks, base, count, ts, x, c, count);
    forall p: nat | Leaf(blocks0, count, base0, x, p).Some?
      ensures Leaf(blocks, count, base, ts[0], p) == Leaf(blocks0, count, base0, x, p)
    {
      LeafStep(blocks0, count, base0, x, p);
      SpineFinds(blocks, base, count, ts, x, c, p);
    }
    assert Regrown(blocks0, base0, blocks, base, count, b, k);
    forall p: nat | Leaf(blocks0, count, base0, root, p).Some?
      ensures Leaf(blocks, count, base, root, p) == Leaf(blocks0, count, base0, root, p)
    {
      RegrownKeeps(blocks0, base0, blocks, base, count, b, k, root, p);
    }
    LeadsKept(blocks0, base0, blocks, base, count, root, n, b, m);
    LeadsOn(blocks, count, base, root, n, b, m);
    LeafStep(blocks, count, base, b, m);
  }

  lemma SpineStarts(blocks: Blocks, base: Base, count: nat, b: int, k: nat, level: nat)
    requires Based(blocks, count, base) && b in base && blocks[b].Tind? && blocks[b].level == level
    requires k < |blocks[b].refs| && blocks[b].refs[k] != NULL_FILE_ADDR
    ensures Spine(blocks, base, blocks, base, count, b, k, [], level)
  {
    assert Shaped(count, blocks[b]);
  }

  /** A slot with more identifiers than an INDR block holds is one of level 2 or more. */
  lemma DeepEnough(blocks: Blocks, count: nat, base: Base, b: int, n: nat)
    requires Based(blocks, count, base) && b in base && blocks[b].Tind? && RestOf(count, blocks[b].level, n) >= count
    ensures blocks[b].level >= 2
  {
    assert Shaped(count, blocks[b]);
    PowOne(count);
  }

  /** The slot the next level goes to, and the identifier within it. */
  lemma SpineStep(blocks0: Blocks, base0: Base, blocks: Blocks, base: Base, count: nat, b: int, k: nat, ts: seq<int>,
                  level: nat, n: nat)
    requires Spine(blocks0, base0, blocks, base, count, b, k, ts, level) && level >= 2 && count >= 2
    requires if ts == [] then SlotOf(count, level, n) == k && RestOf(count, level, n) == count else n == count
    ensures var cur := LastOf(b, ts);
            && cur in base && cur in blocks && blocks[cur].Tind? && blocks[cur].level == level
            && Shaped(count, blocks[cur])
    ensures SlotOf(count, level, n) == (if ts == [] then k else 0) < count && RestOf(count, level, n) == count
    ensures count + 1 < TWO_64
  {
    hide Pow, SlotOf, RestOf, Zeros;
    assert ts != [] ==> SpineAt(base0, blocks, base, count, ts, |ts| - 1, blocks0[b].refs[k], blocks0[b].level);
    assert Shaped(count, blocks[LastOf(b, ts)]);
    assert Shaped(count, blocks0[b]);
    PowOne(count);
    PowMono(count, 2, level);
    MulMono(2, count, count);
    if ts != [] {
      SlotIsZero(count, level, count);
    }
  }

  lemma FirstTwoSlots(count: nat)
    requires count >= 2
    ensures SlotOf(count, 1, count - 1) == 0 && SlotOf(count, 1, count) == 1 && RestOf(count, 1, count) == 0
  {
    hide SlotOf, RestOf, Pow;
    PowOne(count);
    SlotIsZero(count, 1, count - 1);
    SlotIsOne(count, 1);
  }

  // ---- the search for the place of the next identifier ----

  lemma FirstBlock(blocks: Blocks, count: nat, base: Base, c: int)
    requires Based(blocks, count, base) && c !in blocks && c > MISSING_FILE_ADDR
    ensures var blocks', base' := blocks[c := Indr(Zeros(count))], base[c := 0];
            && Based(blocks', count, base') && Leaf(blocks', count, base', c, 0) == Some((c, 0))
            && Kept(blocks, base, NULL_FILE_ADDR, blocks', base', c, count)
  {
    AddKeeps(blocks, count, base, c, Indr(Zeros(count)), 0);
  }

  lemma BlockShaped(blocks: Blocks, count: nat, base: Base, at: int)
    requires Based(blocks, count, base) && at in base
    ensures count > 0 && at in blocks && Shaped(count, blocks[at])
  {
  }

  /** The search came to block `at` with identifier `id` from slot of block `parent` for `parentId`. */
  ghost predicate Under(blocks: Blocks, count: nat, base: Base, root: int, n: nat, parent: int, parentId: nat,
                        at: int, id: nat)
    requires Based(blocks, count, base) && root in base
  {
    && parent in base && parent in blocks && blocks[parent].Tind? && 1 <= parentId < TWO_64
    && Leads(blocks, count, base, root, n, parent, parentId - 1)
    && SlotOf(count, blocks[parent].level, parentId - 1) < |blocks[parent].refs|
    && blocks[parent].refs[SlotOf(count, blocks[parent].level, parentId - 1)] == at
    && id >= 1 && RestOf(count, blocks[parent].level, parentId - 1) == id - 1
  }

  /** The identifier for an empty slot is the first of it, as the one before has its slot. */
  lemma EmptySlot(blocks: Blocks, count: nat, base: Base, at: int, n: nat)
    requires Based(blocks, count, base) && at in base && blocks[at].Tind?
    requires Preceded(blocks, count, base, at, n + 1)
    requires SlotOf(count, blocks[at].level, n) < count && |blocks[at].refs| == count
    requires blocks[at].refs[SlotOf(count, blocks[at].level, n)] == NULL_FILE_ADDR
    ensures RestOf(count, blocks[at].level, n) == 0
  {
    hide Pow, SlotOf, RestOf, Leaf;
    if RestOf(count, blocks[at].level, n) > 0 {
      SlotBefore(count, blocks[at].level, n);
      LeafStep(blocks, count, base, at, n - 1);
    }
  }

  /** An identifier without a slot whose predecessor has one is the first past the block. */
  lemma JustFull(blocks: Blocks, count: nat, base: Base, at: int, n: nat)
    requires Based(blocks, count, base) && at in base
    requires Preceded(blocks, count, base, at, n + 1)
    requires if blocks[at].Tind? then SlotOf(count, blocks[at].level, n) >= count else n >= count
    ensures n == Pow(count, LevelOf(blocks[at]) + 1)
    ensures blocks[at].Indr? ==> n == count
  {
    hide Pow, SlotOf, RestOf;
    PowOne(count);
    if blocks[at].Tind? {
      SlotBound(count, blocks[at].level, n);
    }
    if n > 0 {
      LeafBound(blocks, count, base, at, n - 1);
    }
  }

  /** Only the block on top is ever too small. */
  lemma NeverMissing(blocks: Blocks, count: nat, base: Base, root: int, n: nat, parent: int, parentId: nat, at: int,
                     id: nat)
    requires Based(blocks, count, base) && root in base && Under(blocks, count, base, root, n, parent, parentId, at, id)
    requires at in base && at != NULL_FILE_ADDR && blocks[at].Tind?
    ensures SlotOf(count, blocks[at].level, id - 1) < count
  {
    hide Pow, SlotOf, RestOf, Leads;
    assert Shaped(count, blocks[parent]);
    assert ChildAt(blocks, count, base, parent, SlotOf(count, blocks[parent].level, parentId - 1));
    SlotBound(count, blocks[at].level, id - 1);
  }

  /** The identifier before this one has its slot. */
  ghost predicate Preceded(blocks: Blocks, count: nat, base: Base, at: int, id: nat)
    requires Based(blocks, count, base) && at in base
  {
    id > 1 ==> Leaf(blocks, count, base, at, id - 2).Some?
  }

  /** The identifier itself has its slot. */
  ghost predicate Handed(blocks: Blocks, count: nat, base: Base, at: int, id: nat)
    requires Based(blocks, count, base) && at in base
  {
    id > 0 && Leaf(blocks, count, base, at, id - 1).Some?
  }

  /**
   * Nothing is added for an identifier that has its slot, and a level on top, just one, only when the
   * identifier is the first past the tree.
   */
  ghost predicate GrownAsNeeded(blocks0: Blocks, base0: Base, root0: int, end0: int, blocks: Blocks, root: int,
                                end: int, count: nat, oid: nat)
    requires Based(blocks0, count, base0) && root0 in base0 && root in blocks
  {
    && (Handed(blocks0, count, base0, root0, oid) ==> blocks == blocks0 && root == root0 && end == end0)
    && (root != root0 <==> oid - 1 == Pow(count, LevelOf(blocks0[root0]) + 1))
    && (root != root0 ==> LevelOf(blocks[root]) == LevelOf(blocks0[root0]) + 1)
  }

  /** The slot for the identifier lies within the block. */
  ghost predicate Within(blocks: Blocks, count: nat, at: int, n: nat)
    requires at in blocks && count > 0
  {
    if blocks[at].Tind? then SlotOf(count, blocks[at].level, n) < count else n < count
  }

  /** A tree that leads an identifier on, or has room for it, is not full. */
  lemma {:induction false} RootHolds(blocks: Blocks, count: nat, base: Base, root: int, m: nat, at: int, n: nat)
    requires Based(blocks, count, base) && root in base && Leads(blocks, count, base, root, m, at, n) && at in base
    requires at != root || Within(blocks, count, at, n)
    ensures m < Pow(count, LevelOf(blocks[root]) + 1)
  {
    hide SlotOf;
    PowOne(count);
    if root == at && m == n {
      if blocks[root].Tind? {
        SlotInBlock(count, blocks[root].level, m);
      }
    } else {
      SlotInBlock(count, blocks[root].level, m);
    }
  }

  lemma TreeStays(blocks0: Blocks, base0: Base, root: int, end0: int, blocks: Blocks, end: int, count: nat, oid: nat,
                  at: int, id: nat)
    requires Based(blocks0, count, base0) && root in base0 && root in blocks && at in base0 && oid > 0 && id > 0
    requires Leads(blocks0, count, base0, root, oid - 1, at, id - 1)
    requires at != root || Within(blocks0, count, at, id - 1)
    requires Leaf(blocks0, count, base0, at, id - 1).None? || (blocks == blocks0 && end == end0)
    ensures GrownAsNeeded(blocks0, base0, root, end0, blocks, root, end, count, oid)
  {
    hide Leaf, Leads, Pow, SlotOf;
    RootHolds(blocks0, count, base0, root, oid - 1, at, id - 1);
    LeadsOn(blocks0, count, base0, root, oid - 1, at, id - 1);
  }

  /** A full INDR block below another block has no slot for the identifier. */
  lemma FullLeaf(blocks: Blocks, count: nat, base: Base, root: int, n: nat, parent: int, parentId: nat, at: int,
                 id: nat)
    requires Based(blocks, count, base) && root in base && Under(blocks, count, base, root, n, parent, parentId, at, id)
    requires at in base && blocks[at].Indr? && id > count && at != NULL_FILE_ADDR
    ensures Leaf(blocks, count, base, at, id - 1).None? && at != root
  {
    hide Leads, SlotOf, RestOf, Pow;
    LeafStep(blocks, count, base, at, id - 1);
    LeadsOn(blocks, count, base, root, n, parent, parentId - 1);
    assert Shaped(count, blocks[parent]);
    assert ChildAt(blocks, count, base, parent, SlotOf(count, blocks[parent].level, parentId - 1));
  }

  lemma TreeTopped(blocks0: Blocks, base0: Base, root0: int, end0: int, blocks: Blocks, root: int, end: int, count: nat,
                   oid: nat)
    requires Based(blocks0, count, base0) && root0 in base0 && root in blocks && oid > 0 && root != root0
    requires oid - 1 == Pow(count, LevelOf(blocks0[root0]) + 1)
    requires LevelOf(blocks[root]) == LevelOf(blocks0[root0]) + 1
    ensures GrownAsNeeded(blocks0, base0, root0, end0, blocks, root, end, count, oid)
  {
    hide Leaf, Pow;
    if Handed(blocks0, count, base0, root0, oid) {
      LeafBound(blocks0, count, base0, root0, oid - 1);
    }
  }

  /** An identifier with a slot is never missing on the way down. */
  lemma HandedStep(blocks: Blocks, count: nat, base: Base, at: int, id: nat)
    requires Based(blocks, count, base) && at in base && Handed(blocks, count, base, at, id)
    ensures blocks[at].Indr? ==> id <= count
    ensures blocks[at].Tind? ==> |blocks[at].refs| == count && SlotOf(count, blocks[at].level, id - 1) < count
    ensures blocks[at].Tind? ==> blocks[at].refs[SlotOf(count, blocks[at].level, id - 1)] > MISSING_FILE_ADDR
  {
    LeafStep(blocks, count, base, at, id - 1);
  }

  /** One level down, where the identifier is also found, and the one before if it is in the same slot. */
  lemma NextLevel(blocks: Blocks, count: nat, base: Base, root: int, n: nat, at: int, id: nat)
    requires Based(blocks, count, base) && root in base && 1 <= id < TWO_64
      && Leads(blocks, count, base, root, n, at, id - 1)
    requires at in base && blocks[at].Tind?
    requires |blocks[at].refs| == count && SlotOf(count, blocks[at].level, id - 1) < count
    requires blocks[at].refs[SlotOf(count, blocks[at].level, id - 1)] != NULL_FILE_ADDR
    ensures var c := blocks[at].refs[SlotOf(count, blocks[at].level, id - 1)];
            var next := RestOf(count, blocks[at].level, id - 1) + 1;
            && c in base && c in blocks && LevelOf(blocks[c]) < blocks[at].level
            && Leads(blocks, count, base, root, n, c, next - 1)
            && (Preceded(blocks, count, base, at, id) ==> Preceded(blocks, count, base, c, next))
            && (Handed(blocks, count, base, at, id) ==> Handed(blocks, count, base, c, next))
            && Under(blocks, count, base, root, n, at, id, c, next)
  {
    hide Pow, SlotOf, RestOf;
    LeafStep(blocks, count, base, at, id - 1);
    LeadsStep(blocks, count, base, root, n, at, id - 1);
    if RestOf(count, blocks[at].level, id - 1) > 0 {
      SlotBefore(count, blocks[at].level, id - 1);
      LeafStep(blocks, count, base, at, id - 2);
    }
  }

  lemma NothingChanged(blocks: Blocks, count: nat, base: Base, root: int, n: nat, at: int, m: nat)
    requires Based(blocks, count, base) && root in base && Leads(blocks, count, base, root, n, at, m) && m < count
    requires at in base && blocks[at].Indr?
    ensures Kept(blocks, base, root, blocks, base, root, count)
    ensures Leaf(blocks, count, base, root, n) == Some((at, m))
  {
    LeadsOn(blocks, count, base, root, n, at, m);
    LeafStep(blocks, count, base, at, m);
    hide Pow, Leads;
  }
}
