/**
 * The tree of the indirect index as values: `INDR` blocks that map object identifiers to references,
 * under `TIND` blocks that split the identifier by powers of the number of references in a block.
 */
module IndirectTree {
  import opened Bits
  import opened Results

  const NULL_FILE_ADDR: int := 0
  const MISSING_FILE_ADDR: int := 1

  /** Where the references start in either kind of block, and the size of one. */
  const START: nat := 16
  const REFERENCE: nat := 8

  datatype IndexBlock = Tind(level: nat, refs: seq<int>) | Indr(refs: seq<int>)

  type Blocks = map<int, IndexBlock>

  /** How many levels of TIND there may be under a block, itself included. */
  function LevelOf(b: IndexBlock): nat {
    if b.Tind? then b.level else 0
  }

  function Pow(b: nat, e: nat): (r: nat)
    ensures b > 0 ==> r > 0
  {
    if e == 0 then 1 else MulPositive(b, Pow(b, e - 1)); b * Pow(b, e - 1)
  }

  lemma MulPositive(a: nat, b: nat)
    ensures a * b >= 0 && (a > 0 && b > 0 ==> a * b > 0)
  {
  }

  /** The identifier counted from 0, in 64 bits: OIDs start at 1. */
  function Before(id: nat): (r: nat)
    requires id < TWO_64
    ensures r < TWO_64 && (id > 0 ==> r == id - 1)
  {
    if id == 0 then TWO_64 - 1 else id - 1
  }

  /** The slot of a TIND block for identifier n, counted from 0, and the identifier within that slot. */
  function SlotOf(count: nat, level: nat, n: nat): nat
    requires count > 0
  {
    DivBound(n, Pow(count, level));
    n / Pow(count, level)
  }

  function RestOf(count: nat, level: nat, n: nat): (r: nat)
    requires count > 0
    ensures r < Pow(count, level)
  {
    n % Pow(count, level)
  }

  // ---- the tree ----

  ghost predicate Shaped(count: nat, b: IndexBlock) {
    |b.refs| == count && (b.Tind? ==> b.level > 0 && Pow(count, b.level) < TWO_64)
  }

  /** The child in slot k holds the identifiers from k times count^level on; a TIND child is one level down. */
  ghost predicate ChildAt(blocks: Blocks, count: nat, base: map<int, nat>, at: int, k: nat)
    requires at in blocks && at in base && blocks[at].Tind? && k < |blocks[at].refs|
  {
    var c := blocks[at].refs[k];
    c != NULL_FILE_ADDR ==>
      && c in base && c in blocks
      && (blocks[c].Tind? ==> blocks[c].level + 1 == blocks[at].level) && LevelOf(blocks[c]) < blocks[at].level
      && base[c] == base[at] + k * Pow(count, blocks[at].level)
  }

  /** `base` tells of every block how many identifiers come before its first. */
  ghost predicate Based(blocks: Blocks, count: nat, base: map<int, nat>) {
    && count > 0
    && (forall at :: at in base ==> at in blocks && at > MISSING_FILE_ADDR && Shaped(count, blocks[at]))
    && (forall at, k :: at in base && blocks[at].Tind? && 0 <= k < count ==> ChildAt(blocks, count, base, at, k))
  }

  /** The INDR block and the slot in it that an identifier leads to. */
  ghost function Leaf(blocks: Blocks, count: nat, base: map<int, nat>, at: int, n: nat): Option<(int, nat)>
    requires Based(blocks, count, base) && at in base
    decreases LevelOf(blocks[at])
  {
    match blocks[at]
    case Indr(refs) => if n < count then Some((at, n)) else None
    case Tind(level, refs) =>
      var k := SlotOf(count, level, n);
      if k >= count then None else
        assert ChildAt(blocks, count, base, at, k);
        if refs[k] == NULL_FILE_ADDR then None
        else Leaf(blocks, count, base, refs[k], RestOf(count, level, n))
  }

  lemma LeafStep(blocks: Blocks, count: nat, base: map<int, nat>, at: int, n: nat)
    requires Based(blocks, count, base) && at in base
    ensures at in blocks && |blocks[at].refs| == count
    ensures blocks[at].Indr? ==> Leaf(blocks, count, base, at, n) == if n < count then Some((at, n)) else None
    ensures blocks[at].Tind? ==>
      var k := SlotOf(count, blocks[at].level, n);
      && 0 < Pow(count, blocks[at].level) < TWO_64 && blocks[at].level > 0
      && (k >= count ==> Leaf(blocks, count, base, at, n).None?)
      && (k < count ==>
            var c := blocks[at].refs[k];
            if c == NULL_FILE_ADDR then Leaf(blocks, count, base, at, n).None?
            else c in base && c in blocks && c > MISSING_FILE_ADDR && LevelOf(blocks[c]) < blocks[at].level &&
                 Leaf(blocks, count, base, at, n) == Leaf(blocks, count, base, c, RestOf(count, blocks[at].level, n)))
  {
    assert Shaped(count, blocks[at]);
    if blocks[at].Tind? && SlotOf(count, blocks[at].level, n) < count {
      assert ChildAt(blocks, count, base, at, SlotOf(count, blocks[at].level, n));
    }
  }

  /** The slot and the start of its block give the identifier back. */
  lemma {:induction false} LeafRecovers(blocks: Blocks, count: nat, base: map<int, nat>, at: int, n: nat)
    requires Based(blocks, count, base) && at in base && Leaf(blocks, count, base, at, n).Some?
    ensures var (b, s) := Leaf(blocks, count, base, at, n).value;
            b in base && blocks[b].Indr? && s < count && base[b] + s == base[at] + n
    decreases LevelOf(blocks[at])
  {
    match blocks[at]
    case Indr(_) =>
    case Tind(level, refs) =>
      var k := SlotOf(count, level, n);
      assert ChildAt(blocks, count, base, at, k);
      LeafRecovers(blocks, count, base, refs[k], RestOf(count, level, n));
      DivModIdentity(n, Pow(count, level));
  }

  /** Different identifiers lead to different slots. */
  lemma LeafInjective(blocks: Blocks, count: nat, base: map<int, nat>, at: int, m: nat, n: nat)
    requires Based(blocks, count, base) && at in base
    requires Leaf(blocks, count, base, at, m).Some?
    requires Leaf(blocks, count, base, at, n) == Leaf(blocks, count, base, at, m)
    ensures m == n
  {
    LeafRecovers(blocks, count, base, at, m);
    LeafRecovers(blocks, count, base, at, n);
  }

  /** One slot of an INDR block set. */
  ghost function SetSlot(blocks: Blocks, b: int, s: nat, offset: int): Blocks
    requires b in blocks && blocks[b].Indr? && s < |blocks[b].refs|
  {
    blocks[b := Indr(blocks[b].refs[s := offset])]
  }

  lemma SetSlotBased(blocks: Blocks, count: nat, base: map<int, nat>, b: int, s: nat, offset: int)
    requires Based(blocks, count, base) && b in base && blocks[b].Indr? && s < count
    ensures Based(SetSlot(blocks, b, s, offset), count, base)
  {
    var blocks' := SetSlot(blocks, b, s, offset);
    forall at, k | at in base && blocks'[at].Tind? && 0 <= k < count ensures ChildAt(blocks', count, base, at, k) {
      assert ChildAt(blocks, count, base, at, k);
    }
  }

  /** Setting a slot moves no identifier. */
  lemma {:induction false} SetSlotLeaves(blocks: Blocks, count: nat, base: map<int, nat>, b: int, s: nat, offset: int,
                                         at: int, n: nat)
    requires Based(blocks, count, base) && b in base && blocks[b].Indr? && s < count && at in base
    requires Based(SetSlot(blocks, b, s, offset), count, base)
    ensures Leaf(SetSlot(blocks, b, s, offset), count, base, at, n) == Leaf(blocks, count, base, at, n)
    decreases LevelOf(blocks[at])
  {
    match blocks[at]
    case Indr(_) =>
    case Tind(level, refs) =>
      var k := SlotOf(count, level, n);
      if k < count && refs[k] != NULL_FILE_ADDR {
        assert ChildAt(blocks, count, base, at, k);
        SetSlotLeaves(blocks, count, base, b, s, offset, refs[k], RestOf(count, level, n));
      }
  }

  ghost function Stored(blocks: Blocks, count: nat, base: map<int, nat>, at: int, n: nat): Option<int>
    requires Based(blocks, count, base) && at in base
  {
    match Leaf(blocks, count, base, at, n)
    case None => None
    case Some(leaf) =>
      LeafRecovers(blocks, count, base, at, n);
      Some(blocks[leaf.0].refs[leaf.1])
  }

  /** Setting the reference of one identifier sets what is stored for it and for no other. */
  lemma SetSlotStores(blocks: Blocks, count: nat, base: map<int, nat>, at: int, n: nat, offset: int, m: nat)
    requires Based(blocks, count, base) && at in base && Leaf(blocks, count, base, at, n).Some?
    ensures var (b, s) := Leaf(blocks, count, base, at, n).value;
            && b in base && blocks[b].Indr? && s < count && Based(SetSlot(blocks, b, s, offset), count, base)
            && Stored(SetSlot(blocks, b, s, offset), count, base, at, m) ==
               if m == n then Some(offset) else Stored(blocks, count, base, at, m)
  {
    LeafRecovers(blocks, count, base, at, n);
    var (b, s) := Leaf(blocks, count, base, at, n).value;
    SetSlotBased(blocks, count, base, b, s, offset);
    SetSlotLeaves(blocks, count, base, b, s, offset, at, m);
    if Leaf(blocks, count, base, at, m).Some? {
      LeafRecovers(blocks, count, base, at, m);
      if Leaf(blocks, count, base, at, m) == Leaf(blocks, count, base, at, n) {
        LeafInjective(blocks, count, base, at, n, m);
      }
    }
  }

  /** What is stored for identifier n is now `offset`, for all others what was. */
  ghost predicate Restored(blocks: Blocks, blocks': Blocks, count: nat, base: map<int, nat>, at: int, n: nat,
                           offset: int)
  {
    && Based(blocks, count, base) && Based(blocks', count, base) && at in base
    && forall m: nat :: Stored(blocks', count, base, at, m) ==
                        if m == n then Some(offset) else Stored(blocks, count, base, at, m)
  }

  lemma AllStored(blocks: Blocks, count: nat, base: map<int, nat>, at: int, n: nat, offset: int)
    requires Based(blocks, count, base) && at in base && Leaf(blocks, count, base, at, n).Some?
    ensures var (b, s) := Leaf(blocks, count, base, at, n).value;
            && b in base && b in blocks && blocks[b].Indr? && s < |blocks[b].refs|
            && Restored(blocks, SetSlot(blocks, b, s, offset), count, base, at, n, offset)
  {
    hide Leaf, Stored, Based, SetSlot;
    SetSlotStores(blocks, count, base, at, n, offset, n);
    var (b, s) := Leaf(blocks, count, base, at, n).value;
    LeafStep(blocks, count, base, b, s);
    forall m: nat
      ensures Stored(SetSlot(blocks, b, s, offset), count, base, at, m) ==
              if m == n then Some(offset) else Stored(blocks, count, base, at, m)
    {
      SetSlotStores(blocks, count, base, at, n, offset, m);
    }
  }

  /** The slot taken at a level is that digit of the identifier, in base `count`. */
  lemma SlotIsDigit(count: nat, level: nat, start: nat, n: nat)
    requires count > 0 && start % Pow(count, level + 1) == 0 && n < Pow(count, level + 1)
    ensures SlotOf(count, level, n) == SlotOf(count, level, start + n) % count
  {
    var p, q := Pow(count, level), start / Pow(count, level + 1);
    DivModIdentity(start, count * p);
    DivModIdentity(n, p);
    var k, r := n / p, n % p;
    DivLess(n, p, count);
    DigitSum(q, count, p, k, r);
    DivModUnique(start + n, q * count + k, r, p);
    DivModUnique(q * count + k, q, k, count);
  }

  lemma DivLess(n: nat, p: nat, count: nat)
    requires p > 0 && n < count * p
    ensures n / p < count
  {
    if n / p >= count {
      MulMono(count, n / p, p);
    }
  }

  lemma DigitSum(q: nat, count: nat, p: nat, k: nat, r: nat)
    ensures q * (count * p) + (k * p + r) == (q * count + k) * p + r
  {
    MulAssoc(q, count, p);
    MulDist(q * count, k, p);
  }

  lemma BeforeIs(id: nat)
    requires id < TWO_64
    ensures (id - 1) % TWO_64 == Before(id)
  {
  }

  lemma BeforeNext(n: nat)
    requires n + 1 < TWO_64
    ensures Before(n + 1) == n
  {
  }

  lemma SlotIs(count: nat, level: nat, n: nat, power: nat)
    requires count > 0 && power == Pow(count, level)
    ensures power > 0 && n / power == SlotOf(count, level, n) && 0 <= n % power == RestOf(count, level, n) < power
  {
  }

  lemma CountFits(count: nat, level: nat)
    requires count > 0 && level > 0 && Pow(count, level) < TWO_64
    ensures count < TWO_64
  {
    MulMono(1, Pow(count, level - 1), count);
  }
}
