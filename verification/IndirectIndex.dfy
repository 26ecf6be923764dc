/** The indirect index of a table: look-ups, updates and the growth of its tree of blocks. */
module IndirectIndex {
  import opened Bits
  import opened FileBlocks
  import opened Results
  import opened IndirectTree
  import opened IndirectGrowth

  /** Every block is a page of the file, which new blocks are appended to. */
  ghost predicate Laid(blocks: Blocks, end: int, pageSize: nat) {
    0 < end && OnPage(end, pageSize) && forall c :: c in blocks ==> InFile(c, end, pageSize)
  }

  /** No two blocks share a byte, and none reaches past the end of the file. */
  lemma NoOverlap(blocks: Blocks, end: int, pageSize: nat, c: int, d: int)
    requires Laid(blocks, end, pageSize) && c in blocks && d in blocks
    ensures pageSize <= c && c + pageSize <= end
    ensures c < d ==> c + pageSize <= d
  {
    BehindHeader(c, end, pageSize);
    if c < d {
      PagesApart(c, d, pageSize);
    }
  }

  class IndirectIndexes {
    const pageSize: nat
    /** How many references a block of either kind holds. */
    const count: nat
    var blocks: Blocks
    /** The block on top, NULL_FILE_ADDR while there is none. */
    var root: int
    /** Where the next new block goes. */
    var end: int
    ghost var base: map<int, nat>

    ghost predicate Valid()
      reads this
    {
      && count == (pageSize - START) / REFERENCE && count >= 2 && pageSize > 0
      && blocks.Keys == base.Keys && MISSING_FILE_ADDR < end && Laid(blocks, end, pageSize)
      && Based(blocks, count, base)
      && (root != NULL_FILE_ADDR ==> root in base && base[root] == 0)
    }

    constructor (size: nat)
      requires size % 4096 == 0 && size > 0
      ensures Valid() && root == 0 && pageSize == size && count == (size - 16) / 8
    {
      pageSize, count := size, (size - START) / REFERENCE;
      blocks, root, end, base := map[], NULL_FILE_ADDR, size, map[];
    }

    /** count^level in 64 bits, as the loop computes it. */
    method Power(level: nat) returns (power: nat)
      requires 0 < count < TWO_64 && level > 0
      ensures power == Pow(count, level) % TWO_64
    {
      power := count;
      ModSmall(count, TWO_64);
      assert Pow(count, 1) == count * Pow(count, 0) == count;
      for l := 1 to level
        invariant power == Pow(count, l) % TWO_64
      {
        ModMul(Pow(count, l), count, TWO_64);
        assert Pow(count, l + 1) == count * Pow(count, l);
        power := power * count % TWO_64;
      }
    }

    /** The slot of a TIND block for an identifier, if it has one, and the identifier within that slot. */
    method TopPosition(at: int, id: nat) returns (position: Option<nat>, next: nat)
      requires count > 0 && at in blocks && blocks[at].Tind? && Shaped(count, blocks[at]) && id < TWO_64
      ensures next == RestOf(count, blocks[at].level, Before(id)) + 1 && 1 <= next <= Pow(count, blocks[at].level)
      ensures var k := SlotOf(count, blocks[at].level, Before(id)); position == if k < count then Some(k) else None
    {
      hide Pow, SlotOf, RestOf, Leaf, Before, ChildAt;
      assert Shaped(count, blocks[at]);
      CountFits(count, blocks[at].level);
      var power := Power(blocks[at].level);
      ModSmall(Pow(count, blocks[at].level), TWO_64);
      BeforeIs(id);
      var n := (id - 1) % TWO_64;
      SlotIs(count, blocks[at].level, n, power);
      var k := n / power;
      next := n % power + 1;
      position := if k >= count then None else Some(k);
    }

    method TopGetReference(at: int, id: nat, mustExist: bool) returns (r: Result<int>, next: nat)
      requires Valid() && at in base && blocks[at].Tind? && id < TWO_64
      ensures next == RestOf(count, blocks[at].level, Before(id)) + 1 && 1 <= next <= Pow(count, blocks[at].level)
      ensures |blocks[at].refs| == count
      ensures var k := SlotOf(count, blocks[at].level, Before(id));
              r == if k < count then Ok(blocks[at].refs[k])
                   else if mustExist then Err(LogicError) else Ok(1)
    {
      hide Pow, SlotOf, RestOf, Leaf;
      assert Shaped(count, blocks[at]);
      var position;
      position, next := TopPosition(at, id);
      if position.None? {
        r := if mustExist then Err(LogicError) else Ok(MISSING_FILE_ADDR);
      } else {
        r := Ok(blocks[at].refs[position.value]);
      }
    }

    /** The slot of an INDR block, if the identifier has one there. */
    method LeafPosition(id: nat) returns (position: Option<nat>)
      requires id < TWO_64
      ensures position == if Before(id) < count then Some(Before(id)) else None
    {
      BeforeIs(id);
      var p := (id - 1) % TWO_64;
      return if p >= count then None else Some(p);
    }

    /** Down from the root to the INDR block for an identifier, and the identifier within that block. */
    method Descend(oid: nat) returns (r: Result<int>, id: nat)
      requires Valid() && oid < TWO_64
      ensures r.Err? ==>
                r.error == LogicError && (root == NULL_FILE_ADDR || Leaf(blocks, count, base, root, Before(oid)).None?)
      ensures r.Ok? ==>
                root != NULL_FILE_ADDR && r.value in base && r.value in blocks && blocks[r.value].Indr? && id < TWO_64
      ensures r.Ok? ==> Leads(blocks, count, base, root, Before(oid), r.value, Before(id))
      ensures r.Ok? ==> Leaf(blocks, count, base, root, Before(oid)) == Leaf(blocks, count, base, r.value, Before(id))
    {
      hide Leaf, Leads, Based, Pow, Before, ChildAt, SlotOf, RestOf;
      id := oid;
      if root == NULL_FILE_ADDR {
        return Err(LogicError), id;
      }
      var at := root;
      LeafStep(blocks, count, base, at, Before(id));
      LeadsHere(blocks, count, base, at, Before(id));
      while blocks[at].Tind?
        invariant at in base && at in blocks && id < TWO_64
        invariant Leads(blocks, count, base, root, Before(oid), at, Before(id))
        invariant Leaf(blocks, count, base, root, Before(oid)) == Leaf(blocks, count, base, at, Before(id))
        decreases LevelOf(blocks[at])
      {
        LeafStep(blocks, count, base, at, Before(id));
        var got, next := TopGetReference(at, id, true);
        if got.Err? {
          return got, id;
        }
        if got.value == NULL_FILE_ADDR {
          return Err(LogicError), id;
        }
        BeforeNext(RestOf(count, blocks[at].level, Before(id)));
        LeadsStep(blocks, count, base, root, Before(oid), at, Before(id));
        at, id := got.value, next;
      }
      r := Ok(at);
    }

    method GetIndirectReference(oid: nat) returns (r: Result<int>)
      requires Valid() && oid < TWO_64
      ensures r == if root == NULL_FILE_ADDR then Err(LogicError)
                   else match Stored(blocks, count, base, root, Before(oid))
                        case None => Err(LogicError)
                        case Some(reference) => Ok(reference)
    {
      var indr, id := Descend(oid);
      if indr.Err? {
        return indr;
      }
      LeafStep(blocks, count, base, indr.value, Before(id));
      var position := LeafPosition(id);
      r := if position.None? then Err(LogicError) else Ok(blocks[indr.value].refs[position.value]);
    }

    /** Sets what is stored for one identifier; all others keep theirs. */
    method SetIndirectReference(oid: nat, offset: int) returns (r: Result<()>)
      requires Valid() && oid < TWO_64
      modifies `blocks
      ensures Valid()
      ensures r.Err? <==> root == NULL_FILE_ADDR || old(Leaf(blocks, count, base, root, Before(oid))).None?
      ensures r.Err? ==> r.error == LogicError && blocks == old(blocks)
      ensures r.Ok? ==> Restored(old(blocks), blocks, count, base, root, Before(oid), offset)
    {
      hide Leaf, Based, Pow, Before, ChildAt, LevelOf, Restored, SlotOf, RestOf;
      var indr, id := Descend(oid);
      if indr.Err? {
        return Err(LogicError);
      }
      LeafStep(blocks, count, base, indr.value, Before(id));
      var position := LeafPosition(id);
      if position.None? {
        return Err(LogicError);
      }
      AllStored(blocks, count, base, root, Before(oid), offset);
      SetSlotBased(blocks, count, base, indr.value, position.value, offset);
      blocks := blocks[indr.value := Indr(blocks[indr.value].refs[position.value := offset])];
      return Ok(());
    }

    method NewBlock(b: IndexBlock) returns (c: int)
      requires Laid(blocks, end, pageSize)
      modifies `blocks, `end
      ensures c == old(end) && blocks == old(blocks)[c := b] && end == c + pageSize && c !in old(blocks)
      ensures Laid(blocks, end, pageSize)
    {
      hide OnPage;
      NextPage(end, pageSize);
      c := end;
      end := end + pageSize;
      blocks := blocks[c := b];
    }

    /** Sets the reference in the slot for an identifier. */
    method TopSetReference(at: int, id: nat, offset: int) returns (r: Result<()>, next: nat)
      requires count > 0 && at in blocks && blocks[at].Tind? && Shaped(count, blocks[at]) && id < TWO_64
      modifies `blocks
      ensures next == RestOf(count, old(blocks)[at].level, Before(id)) + 1
        && 1 <= next <= Pow(count, old(blocks)[at].level)
      ensures |old(blocks)[at].refs| == count
      ensures var k := SlotOf(count, old(blocks)[at].level, Before(id));
              if k < count then r.Ok? && blocks == Linked(old(blocks), at, k, offset)
              else r == Err(LogicError) && blocks == old(blocks)
    {
      hide Pow, SlotOf, RestOf, Before;
      var position;
      position, next := TopPosition(at, id);
      if position.None? {
        r := Err(LogicError);
      } else {
        blocks := blocks[at := Tind(blocks[at].level, blocks[at].refs[position.value := offset])];
        r := Ok(());
      }
    }

    /** A new INDR block in the empty slot for identifier `saved`. */
    method AddInSlot(at: int, saved: nat, ghost n: nat) returns (indr: int, id: nat)
      requires Valid() && root in base && 1 <= saved < TWO_64 && Leads(blocks, count, base, root, n, at, saved - 1)
      requires at in base && blocks[at].Tind? && SlotOf(count, blocks[at].level, saved - 1) < |blocks[at].refs|
      requires blocks[at].refs[SlotOf(count, blocks[at].level, saved - 1)] == NULL_FILE_ADDR
      requires RestOf(count, blocks[at].level, saved - 1) < count
      modifies `blocks, `end, `base
      ensures Valid() && root != NULL_FILE_ADDR && Kept(old(blocks), old(base), root, blocks, base, root, count)
      ensures root in base && Leaf(blocks, count, base, root, n) == Some((indr, id - 1)) && 1 <= id <= count
      ensures end == old(end) + pageSize && blocks.Keys == old(blocks).Keys + {indr}
      ensures forall c :: c in old(blocks) ==> LevelOf(blocks[c]) == LevelOf(old(blocks)[c])
    {
      hide Pow, SlotOf, RestOf, Leaf, Leads, Kept, Zeros;
      assert Shaped(count, blocks[at]);
      ghost var k := SlotOf(count, blocks[at].level, saved - 1);
      indr := end;
      ghost var base' := GrowLeaf(blocks, count, base, root, n, at, saved - 1, indr);
      indr := NewBlock(Indr(Zeros(count)));
      var _, next := TopSetReference(at, saved, indr);
      id := next;
      base := base';
    }

    /** A new level on top: the old tree goes to slot 0, the identifier to slot 1. */
    method AddTop(saved: nat) returns (indr: int, id: nat)
      requires Valid() && root != NULL_FILE_ADDR && 1 <= saved < TWO_64
      requires saved - 1 == Pow(count, LevelOf(blocks[root]) + 1)
      modifies `blocks, `end, `base, `root
      ensures Valid() && root != NULL_FILE_ADDR && Kept(old(blocks), old(base), old(root), blocks, base, root, count)
      ensures Leaf(blocks, count, base, root, saved - 1) == Some((indr, id - 1)) && 1 <= id <= count
      ensures root == old(end) && LevelOf(blocks[root]) == old(LevelOf(blocks[root])) + 1
      ensures end == old(end) + 2 * pageSize && blocks.Keys == old(blocks).Keys + {root, indr}
    {
      hide Pow, SlotOf, RestOf, Leaf, Leads, Kept, Zeros, Covers, NewTop, Linked, Based;
      ghost var blocks0, base0, root0 := blocks, base, root;
      NewTopIs(blocks, count, root, end);
      ghost var level := LevelOf(blocks[root]) + 1;
      ZerosAre(count);
      GrowTop(blocks, count, base, root, end);
      SlotIsOne(count, level);
      SlotIsZero(count, level, saved - 2);
      var top := NewBlock(Tind(LevelOf(blocks[root]) + 1, Zeros(count)));
      var _, _ := TopSetReference(top, saved - 1, root);
      base := base[top := 0];
      root := top;
      LeadsHere(blocks, count, base, root, saved - 1);
      label here:
      indr, id := AddInSlot(top, saved, saved - 1);
      KeptTrans(blocks0, base0, root0, old@here(blocks), old@here(base), root, blocks, base, root, count);
    }

    /** Below the lowest new level: the full INDR block in slot 0 and a new one in slot 1. */
    method FinishSpine(cur: int, at: int, saved: nat, ghost blocks0: Blocks, ghost base0: Base, ghost parent: int,
                       ghost k: nat, ghost ts: seq<int>)
      returns (indr: int, id: nat)
      requires Spine(blocks0, base0, blocks, base, count, parent, k, ts, 1) && |ts| > 0 && count >= 2
      requires blocks.Keys == base.Keys && end > MISSING_FILE_ADDR && pageSize > 0 && Laid(blocks, end, pageSize)
      requires blocks0[parent].refs[k] == at && at in blocks0 && blocks0[at].Indr? && saved == count + 1
        && cur == LastOf(parent, ts)
      modifies `blocks, `end, `base
      ensures Based(blocks, count, base) && SpineShape(blocks, base, count, ts, at, indr) && id == 1
      ensures end == old(end) + pageSize
      ensures forall d :: d in base0 ==> d in base && (d != parent ==> blocks[d] == blocks0[d])
      ensures blocks[parent] == Tind(blocks0[parent].level, blocks0[parent].refs[k := ts[0]])
      ensures blocks.Keys == base.Keys && end > MISSING_FILE_ADDR && Laid(blocks, end, pageSize)
      ensures parent in base0 && base.Keys == old(base).Keys + {indr} && forall d :: d in base0 ==> base[d] == base0[d]
    {
      hide Pow, SlotOf, RestOf, Zeros, Based, Linked, SpineShape;
      ghost var x, last, base' := SpineEnds(blocks0, base0, blocks, base, count, parent, k, ts, end);
      ghost var blocks' := SpineDone(blocks, count, cur, x, end);
      FirstTwoSlots(count);
      LinkedIs(blocks, cur, 0, at);
      LinkedIs(Linked(blocks, cur, 0, at)[end := Indr(Zeros(count))], cur, 1, end);
      var _, _ := TopSetReference(cur, saved - 1, at);
      indr := NewBlock(Indr(Zeros(count)));
      var _, next := TopSetReference(cur, saved, indr);
      id := next;
      base := base';
      assert blocks == blocks';
    }

    /** The levels missing between TIND block `parent` and the full INDR block `at` in one of its slots, all at once. */
    method Deepen(at: int, saved: nat, parent: int, parentId: nat, ghost n: nat) returns (r: Result<int>, id: nat)
      requires Valid() && root != NULL_FILE_ADDR && root in base && 1 <= parentId < TWO_64 && saved == count + 1
      requires parent in base && blocks[parent].Tind? && Leads(blocks, count, base, root, n, parent, parentId - 1)
      requires SlotOf(count, blocks[parent].level, parentId - 1) < |blocks[parent].refs|
      requires blocks[parent].refs[SlotOf(count, blocks[parent].level, parentId - 1)] == at != NULL_FILE_ADDR
      requires at in base && blocks[at].Indr? && RestOf(count, blocks[parent].level, parentId - 1) == count
      modifies `blocks, `end, `base
      ensures Valid() && root != NULL_FILE_ADDR && Kept(old(blocks), old(base), root, blocks, base, root, count)
      ensures r.Ok? && root in base && Leaf(blocks, count, base, root, n) == Some((r.value, id - 1)) && id == 1
      ensures end == old(end) + old(blocks[parent].level) * pageSize
    {
      hide Pow, SlotOf, RestOf, Leaf, Leads, Kept, Zeros, Based, Spine, SpineShape, Linked;
      ghost var blocks0, base0 := blocks, base;
      ghost var k := SlotOf(count, blocks[parent].level, parentId - 1);
      DeepEnough(blocks, count, base, parent, parentId - 1);
      if blocks[parent].level <= 1 {
        assert false;
      }
      var level, cur, position := blocks[parent].level, parent, parentId;
      ghost var ts: seq<int> := [];
      SpineStarts(blocks, base, count, parent, k, level);
      while level > 1
        invariant 1 <= level <= blocks0[parent].level && |ts| == blocks0[parent].level - level
          && cur == LastOf(parent, ts)
        invariant Spine(blocks0, base0, blocks, base, count, parent, k, ts, level)
        invariant position == if ts == [] then parentId else count + 1
        invariant blocks.Keys == base.Keys && end > MISSING_FILE_ADDR && Laid(blocks, end, pageSize)
        invariant end == old(end) + |ts| * pageSize
      {
        MulDist(|ts|, 1, pageSize);
        SpineStep(blocks0, base0, blocks, base, count, parent, k, ts, level, position - 1);
        level := level - 1;
        ghost var blocks', base' := SpineGrows(blocks0, base0, blocks, base, count, parent, k, ts, level + 1, end);
        var top := NewBlock(Tind(level, Zeros(count)));
        var _, next := TopSetReference(cur, position, top);
        base, ts := base', ts + [top];
        position, cur := next, top;
      }
      var indr;
      MulDist(|ts|, 1, pageSize);
      indr, id := FinishSpine(cur, at, saved, blocks0, base0, parent, k, ts);
      GrowSpine(blocks0, base0, blocks, base, count, root, n, parent, parentId - 1, ts, at, indr);
      r := Ok(indr);
    }

    /**
     * The INDR block for an identifier: one from the list of freed ones, which must exist and has its slot,
     * or the one handed out next, whose predecessor has its slot. All identifiers keep theirs.
     */
    method PlaceOid(oid: nat, mustExist: bool) returns (r: Result<int>, id: nat)
      requires Valid() && 1 <= oid < TWO_64
      requires mustExist ==> root != NULL_FILE_ADDR && Handed(blocks, count, base, root, oid)
      requires !mustExist && root != NULL_FILE_ADDR ==> Preceded(blocks, count, base, root, oid)
      modifies `blocks, `end, `base, `root
      ensures Valid()
      ensures r.Err? <==> old(root) == NULL_FILE_ADDR && oid != 1
      ensures r.Err? ==> r.error == LogicError && blocks == old(blocks) && root == old(root)
      ensures r.Ok? ==> root != NULL_FILE_ADDR && Kept(old(blocks), old(base), old(root), blocks, base, root, count)
      ensures mustExist ==> r.Ok? && blocks == old(blocks) && root == old(root) && end == old(end)
      ensures r.Ok? ==> Leaf(blocks, count, base, root, oid - 1) == Some((r.value, id - 1)) && 1 <= id <= count
      // nothing is added for an identifier that has its slot, and a level on top only when the tree is full
      ensures old(root) != NULL_FILE_ADDR ==>
                root in blocks &&
                GrownAsNeeded(old(blocks), old(base), old(root), old(end), blocks, root, end, count, oid)
    {
      hide Pow, SlotOf, RestOf, Leaf, Leads, Kept, Zeros, Based, Shaped, GrownAsNeeded, Handed, Preceded;
      id := oid;
      if root == NULL_FILE_ADDR {
        if oid != 1 {
          return Err(LogicError), id;
        }
        FirstBlock(blocks, count, base, end);
        var first := NewBlock(Indr(Zeros(count)));
        root, base := first, base[first := 0];
        return Ok(first), id;
      }
      var at, parent, parentId := root, NULL_FILE_ADDR, oid;
      LeadsHere(blocks, count, base, root, oid - 1);
      LeafStep(blocks, count, base, at, id - 1);
      while blocks[at].Tind?
        invariant Valid() && blocks == old(blocks) && base == old(base) && root == old(root) && end == old(end)
        invariant Based(blocks, count, base) && root in base
        invariant at in base && at in blocks && at != NULL_FILE_ADDR && 1 <= id < TWO_64
        invariant Leads(blocks, count, base, root, oid - 1, at, id - 1)
        invariant if mustExist then Handed(blocks, count, base, at, id) else Preceded(blocks, count, base, at, id)
        invariant parent == NULL_FILE_ADDR ==> at == root && id == oid
        invariant parent != NULL_FILE_ADDR ==> Under(blocks, count, base, root, oid - 1, parent, parentId, at, id)
        decreases LevelOf(blocks[at])
      {
        var saved := id;
        LeafStep(blocks, count, base, at, id - 1);
        BlockShaped(blocks, count, base, at);
        if mustExist {
          HandedStep(blocks, count, base, at, id);
        }
        var got, next := TopGetReference(at, id, mustExist);
        id := next;
        if got.value == NULL_FILE_ADDR {
          EmptySlot(blocks, count, base, at, saved - 1);
          var indr;
          indr, id := AddInSlot(at, saved, oid - 1);
          TreeStays(old(blocks), old(base), root, old(end), blocks, end, count, oid, at, saved);
          return Ok(indr), id;
        }
        if got.value == MISSING_FILE_ADDR {
          if parent != NULL_FILE_ADDR {
            assert false by {
              NeverMissing(blocks, count, base, root, oid - 1, parent, parentId, at, saved);
            }
          }
          JustFull(blocks, count, base, at, saved - 1);
          var indr;
          indr, id := AddTop(saved);
          TreeTopped(old(blocks), old(base), old(root), old(end), blocks, root, end, count, oid);
          return Ok(indr), id;
        }
        NextLevel(blocks, count, base, root, oid - 1, at, saved);
        parent, parentId, at := at, saved, got.value;
      }
      if mustExist {
        HandedStep(blocks, count, base, at, id);
      }
      if id > count {
        JustFull(blocks, count, base, at, id - 1);
        var indr;
        if parent == NULL_FILE_ADDR {
          indr, id := AddTop(id);
          TreeTopped(old(blocks), old(base), old(root), old(end), blocks, root, end, count, oid);
          return Ok(indr), id;
        }
        ghost var full := id;
        r, id := Deepen(at, id, parent, parentId, oid - 1);
        FullLeaf(old(blocks), count, old(base), old(root), oid - 1, parent, parentId, at, full);
        TreeStays(old(blocks), old(base), root, old(end), blocks, end, count, oid, at, full);
        return;
      }
      NothingChanged(blocks, count, base, root, oid - 1, at, id - 1);
      TreeStays(blocks, base, root, end, blocks, end, count, oid, at, id);
      return Ok(at), id;
    }
  }
}
