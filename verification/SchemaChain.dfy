/**
 * The chain of schema blocks: a byte string kept in linked pages that are reused, added and given
 * back each time it is saved, over the table's pool of free blocks.
 */
module SchemaChain {
  import opened Bits
  import opened Buffers
  import opened FileBlocks
  import opened Sequences
  import opened FlatBytes
  import opened VirtualBuffers

  /** The static part of a schema block: magic, version, size and next reference. */
  const HEADER: nat := 20

  /** How many blocks the file grows by. */
  const GROWTH: nat := 16

  /** A schema block: its size and next fields and the bytes of its page. */
  datatype SchemaPage = SchemaPage(size: nat, next: int, bytes: seq<byte>)

  type Pages = map<int, SchemaPage>

  predicate PageOk(page: SchemaPage, pageSize: nat) {
    HEADER + page.size <= pageSize == |page.bytes|
  }

  ghost predicate PagesOk(pages: Pages, pageSize: nat) {
    forall c :: c in pages ==> PageOk(pages[c], pageSize)
  }

  function Used(page: SchemaPage): seq<byte> {
    if HEADER + page.size <= |page.bytes| then page.bytes[HEADER..HEADER + page.size] else []
  }

  /** The bytes of the blocks cs, one after the other. */
  ghost function Contents(pages: Pages, cs: seq<int>): seq<byte> {
    if |cs| == 0 || cs[|cs| - 1] !in pages then [] else Contents(pages, cs[..|cs| - 1]) + Used(pages[cs[|cs| - 1]])
  }

  /** The blocks cs are linked in this order and in no circle. */
  ghost predicate Linked(pages: Pages, cs: seq<int>) {
    && |cs| > 0
    && (forall i :: 0 <= i < |cs| ==> cs[i] in pages && pages[cs[i]].next == Following(cs, i))
    && (forall i, j :: 0 <= i < j < |cs| ==> cs[i] != cs[j])
  }

  function Following(cs: seq<int>, i: nat): int {
    if i + 1 < |cs| then cs[i + 1] else 0
  }

  /** Pages the blocks cs are not among play no part. */
  lemma {:induction false} ContentsFrame(pages: Pages, pages': Pages, cs: seq<int>)
    requires forall c :: c in cs ==> c in pages && c in pages' && Used(pages[c]) == Used(pages'[c])
    ensures Contents(pages, cs) == Contents(pages', cs)
  {
    if |cs| > 0 {
      hide Used;
      var init, last := cs[..|cs| - 1], cs[|cs| - 1];
      assert last in cs;
      assert forall c :: c in init ==> c in cs;
      ContentsFrame(pages, pages', init);
      assert Contents(pages, cs) == Contents(pages, init) + Used(pages[last]);
      assert Contents(pages', cs) == Contents(pages', init) + Used(pages'[last]);
    }
  }

  lemma ContentsSnoc(pages: Pages, cs: seq<int>, c: int)
    requires c in pages
    ensures Contents(pages, cs + [c]) == Contents(pages, cs) + Used(pages[c])
  {
    assert (cs + [c])[..|cs|] == cs;
  }

  lemma ContentsUpTo(pages: Pages, cs: seq<int>, i: nat)
    requires Linked(pages, cs) && i < |cs|
    ensures Contents(pages, cs[..i + 1]) == Contents(pages, cs[..i]) + Used(pages[cs[i]])
    ensures |Contents(pages, cs[..i + 1])| <= |Contents(pages, cs)|
    decreases |cs| - i
  {
    assert cs[..i + 1] == cs[..i] + [cs[i]];
    ContentsSnoc(pages, cs[..i], cs[i]);
    if i + 1 < |cs| {
      ContentsUpTo(pages, cs, i + 1);
    } else {
      assert cs[..i + 1] == cs;
    }
  }

  // ---- the pool ----

  /** The k blocks from `first` on, one page after the other. */
  function NewBlocks(first: int, pageSize: nat, k: nat): (r: seq<int>)
    ensures |r| == k
    ensures forall i :: 0 <= i < k ==> r[i] == first + i * pageSize
  {
    seq(k, i => first + i * pageSize)
  }

  /** Blocks are either schema blocks or free, the free ones listed once, each of them a page of the file. */
  ghost predicate Pool(pages: Pages, free: seq<int>, end: int, pageSize: nat) {
    && 0 < end && OnPage(end, pageSize)
    && (forall c :: c in pages ==> InFile(c, end, pageSize))
    && (forall i :: 0 <= i < |free| ==> InFile(free[i], end, pageSize) && free[i] !in pages)
    && (forall i, j :: 0 <= i < j < |free| ==> free[i] != free[j])
  }

  /** No two blocks share a byte, and none reaches past the end of the file. */
  lemma NoOverlap(pages: Pages, free: seq<int>, end: int, pageSize: nat, c: int, d: int)
    requires Pool(pages, free, end, pageSize) && c in Blocks(pages, free) && d in Blocks(pages, free)
    ensures pageSize <= c && c + pageSize <= end
    ensures c < d ==> c + pageSize <= d
  {
    assert InFile(c, end, pageSize) && InFile(d, end, pageSize);
    BehindHeader(c, end, pageSize);
    if c < d {
      PagesApart(c, d, pageSize);
    }
  }

  /** A file that grows by k blocks. */
  lemma GrownPool(pages: Pages, free0: seq<int>, end: int, pageSize: nat, k: nat, page: SchemaPage)
    requires Pool(pages, free0, end, pageSize) && k > 0
    ensures end !in pages && end + pageSize <= end + k * pageSize
    ensures Pool(pages[end := page], NewBlocks(end + pageSize, pageSize, k - 1), end + k * pageSize, pageSize)
  {
    hide OnPage;
    var free := NewBlocks(end + pageSize, pageSize, k - 1);
    MulMono(1, k, pageSize);
    PageOn(end, pageSize, k);
    forall i | 0 <= i < |free| ensures end < free[i] && InFile(free[i], end + k * pageSize, pageSize) {
      NewBlockAt(end, pageSize, k, i);
    }
    forall i, j | 0 <= i < j < |free| ensures free[i] != free[j] {
      MulMono(i + 1, j, pageSize);
      MulDist(i, 1, pageSize);
    }
  }

  lemma NewBlockAt(end: int, pageSize: nat, k: nat, i: nat)
    requires 0 < end && 0 < pageSize && OnPage(end, pageSize) && i + 1 < k
    ensures var c := end + pageSize + i * pageSize; end < c && InFile(c, end + k * pageSize, pageSize)
  {
    hide OnPage;
    MulDist(i, 1, pageSize);
    MulDist(i + 1, 1, pageSize);
    MulMono(i + 2, k, pageSize);
    MulMono(0, i, pageSize);
    PageOn(end, pageSize, i + 1);
  }

  ghost function Blocks(pages: Pages, free: seq<int>): set<int> {
    pages.Keys + set c | c in free
  }

  lemma PageReplaced(pages: Pages, free: seq<int>, end: int, pageSize: nat, s: int, page: SchemaPage)
    requires PagesOk(pages, pageSize) && Pool(pages, free, end, pageSize) && s in pages && PageOk(page, pageSize)
    ensures PagesOk(pages[s := page], pageSize) && Pool(pages[s := page], free, end, pageSize)
    ensures pages[s := page].Keys == pages.Keys && Blocks(pages[s := page], free) == Blocks(pages, free)
  {
    hide PageOk;
  }

  /** What follows block i is a chain of its own, whatever becomes of block i. */
  lemma SuffixLinked(pages: Pages, cs: seq<int>, i: nat, page: SchemaPage)
    requires Linked(pages, cs) && i < |cs|
    ensures i + 1 < |cs| ==> Linked(pages[cs[i] := page], cs[i + 1..])
    ensures pages[cs[i]].next == if i + 1 < |cs| then cs[i + 1..][0] else 0
  {
  }

  lemma PrefixLinked(pages: Pages, pages': Pages, cs: seq<int>, i: nat)
    requires Linked(pages, cs) && i < |cs|
    requires forall c :: c in pages && c !in cs[i + 1..] ==>
               c in pages' && pages'[c] == if c == cs[i] then pages[c].(next := 0) else pages[c]
    ensures Linked(pages', cs[..i + 1])
    ensures Contents(pages', cs[..i + 1]) == Contents(pages, cs[..i + 1])
  {
    hide Used, Contents, Linked;
    var front := cs[..i + 1];
    forall k | 0 <= k <= i
      ensures cs[k] in pages && cs[k] in pages' && pages'[cs[k]].next == Following(front, k)
      ensures Used(pages'[cs[k]]) == Used(pages[cs[k]])
    {
      BlockBefore(pages, cs, i, k);
      UsedKept(pages[cs[k]], 0);
    }
    forall j, k | 0 <= j < k <= i ensures cs[j] != cs[k] {
      BlocksDiffer(pages, cs, j, k);
    }
    LinkedWhen(pages', front);
    ContentsFrame(pages, pages', front);
  }

  /** Block k is not among the blocks behind a later block i. */
  lemma BlockBefore(pages: Pages, cs: seq<int>, i: nat, k: nat)
    requires Linked(pages, cs) && k <= i < |cs|
    ensures cs[k] in pages && cs[k] !in cs[i + 1..]
    ensures k < i ==> cs[k] != cs[i]
    ensures pages[cs[k]].next == Following(cs, k)
  {
  }

  lemma BlocksDiffer(pages: Pages, cs: seq<int>, j: nat, k: nat)
    requires Linked(pages, cs) && j < k < |cs|
    ensures cs[j] != cs[k]
  {
  }

  lemma LinkedWhen(pages: Pages, cs: seq<int>)
    requires |cs| > 0
    requires forall k :: 0 <= k < |cs| ==> cs[k] in pages && pages[cs[k]].next == Following(cs, k)
    requires forall j, k :: 0 <= j < k < |cs| ==> cs[j] != cs[k]
    ensures Linked(pages, cs)
  {
  }

  lemma UsedKept(page: SchemaPage, next: int)
    ensures Used(page.(next := next)) == Used(page)
  {
  }

  lemma ExtendLinked(pages: Pages, pages': Pages, cs: seq<int>, added: int)
    requires Linked(pages, cs) && added !in pages && added in pages' && pages'[added].next == 0
    requires forall c :: c in pages ==>
               c in pages' && pages'[c] == if c == cs[|cs| - 1] then pages[c].(next := added) else pages[c]
    ensures Linked(pages', cs + [added])
    ensures Contents(pages', cs) == Contents(pages, cs)
  {
    hide Used, Contents;
    forall page: SchemaPage ensures Used(page.(next := added)) == Used(page) {
      UsedKept(page, added);
    }
    ContentsFrame(pages, pages', cs);
  }

  lemma LinkedAt(pages: Pages, cs: seq<int>, i: nat)
    requires Linked(pages, cs) && i < |cs|
    ensures cs[i] in pages && pages[cs[i]].next == Following(cs, i)
  {
  }

  lemma PageNext(pages: Pages, pageSize: nat, s: int, next: int)
    requires PagesOk(pages, pageSize) && s in pages
    ensures PageOk(pages[s].(next := next), pageSize) && PageOk(pages[s], pageSize)
  {
  }

  lemma BlocksTaken(pages: Pages, free: seq<int>, pages': Pages, free': seq<int>, added: int)
    requires pages'.Keys == pages.Keys + {added}
    requires |free| > 0 ==> added == free[0] && free' == free[1..]
    ensures Blocks(pages, free) <= Blocks(pages', free')
    ensures |free| > 0 ==> Blocks(pages, free) == Blocks(pages', free')
  {
    if |free| > 0 {
      assert free == [added] + free';
    }
  }

  /** All blocks but the ones in `gone`, unchanged. */
  ghost predicate Remain(pages0: Pages, pages: Pages, gone: seq<int>) {
    && (forall c :: c in pages <==> c in pages0 && c !in gone)
    && (forall c :: c in pages ==> pages[c] == pages0[c])
  }

  lemma RestAt(pages0: Pages, pages: Pages, rest: seq<int>, j: nat)
    requires j < |rest| && Linked(pages0, rest) && Remain(pages0, pages, rest[..j])
    ensures rest[j] in pages && pages[rest[j]].next == Following(rest, j)
    ensures Remain(pages0, pages - {rest[j]}, rest[..j + 1])
  {
    hide Linked, Remain;
    forall k | 0 <= k < j ensures rest[..j][k] != rest[j] {
      BlocksDiffer(pages0, rest, k, j);
    }
    LinkedAt(pages0, rest, j);
    Remaining(pages0, pages, rest[..j], rest[j]);
    assert rest[..j + 1] == rest[..j] + [rest[j]];
  }

  lemma Remaining(pages0: Pages, pages: Pages, gone: seq<int>, c: int)
    requires Remain(pages0, pages, gone) && c in pages0 && c !in gone
    ensures c in pages && pages[c] == pages0[c]
    ensures Remain(pages0, pages - {c}, gone + [c])
  {
  }

  lemma NeverNull(pages: Pages, free: seq<int>, end: int, pageSize: nat, cs: seq<int>)
    requires Pool(pages, free, end, pageSize) && Linked(pages, cs)
    ensures forall j :: 0 <= j < |cs| ==> cs[j] != 0
  {
  }

  lemma FullRead(offset: nat, size: nat, total: nat)
    requires offset + size <= total < TWO_64
    ensures DataAvailable(offset, size, total) && (size > 0 ==> Readable(offset, size, total) == size)
  {
  }

  lemma ReadAll(buf: seq<byte>, buf0: seq<byte>, s: seq<byte>, o: nat, size: nat)
    requires |buf0| == size && o + size <= |s|
    requires size > 0 ==> Reading(buf, buf0, s, o, size)
    requires size == 0 ==> |buf| == 0
    ensures buf == s[o..o + size]
  {
  }

  lemma WrittenBlock(pages: Pages, cs: seq<int>, i: nat, page: SchemaPage, data: seq<byte>, pos: nat)
    requires Linked(pages, cs) && i < |cs| && page.next == pages[cs[i]].next
    requires pos + page.size <= |data| && HEADER + page.size <= |page.bytes|
    requires page.bytes[HEADER..HEADER + page.size] == data[pos..pos + page.size]
    requires Contents(pages, cs[..i]) == data[..pos]
    ensures Linked(pages[cs[i] := page], cs)
    ensures Contents(pages[cs[i] := page], cs[..i + 1]) == data[..pos + page.size]
  {
    hide Linked, Used, Contents;
    LinkedAt(pages, cs, i);
    var pages' := pages[cs[i] := page];
    LinkedWritten(pages, cs, i, page);
    assert cs[..i + 1] == cs[..i] + [cs[i]];
    ContentsSnoc(pages', cs[..i], cs[i]);
    UsedIs(page);
    SliceJoin(data, 0, pos, pos + page.size);
    assert data[0..pos] == data[..pos] && data[0..pos + page.size] == data[..pos + page.size];
  }

  lemma UsedIs(page: SchemaPage)
    requires 20 + page.size <= |page.bytes|
    ensures Used(page) == page.bytes[20..20 + page.size]
  {
  }

  lemma LinkedWritten(pages: Pages, cs: seq<int>, i: nat, page: SchemaPage)
    requires Linked(pages, cs) && i < |cs| && page.next == pages[cs[i]].next
    ensures Linked(pages[cs[i] := page], cs)
    ensures Contents(pages[cs[i] := page], cs[..i]) == Contents(pages, cs[..i])
  {
    hide Used, Contents;
    forall k | 0 <= k < i ensures cs[..i][k] != cs[i] {
    }
    ContentsFrame(pages, pages[cs[i] := page], cs[..i]);
  }

  /** The chain so far: the old one, or the old one and new blocks; all other blocks as they were. */
  ghost predicate Grown(pages0: Pages, pages: Pages, cs0: seq<int>, cs: seq<int>, i: nat) {
    && |cs0| <= |cs| && cs[..|cs0|] == cs0 && (|cs| > |cs0| ==> i == |cs| - 1)
    && (forall j :: |cs0| <= j < |cs| ==> cs[j] !in pages0)
    && (forall c :: c in pages <==> c in pages0 || c in cs)
    && (forall c :: c in pages0 && c !in cs0 ==> pages[c] == pages0[c])
  }

  /** One more block, which block s leads to. */
  ghost predicate Appended(pages: Pages, pages': Pages, s: int, added: int) {
    && (forall c :: c in pages' <==> c in pages || c == added)
    && (forall c :: c in pages ==> pages'[c] == if c == s then pages[c].(next := added) else pages[c])
  }

  /** The blocks in `gone` are no more, and block s leads nowhere. */
  ghost predicate Ended(pages: Pages, pages': Pages, s: int, gone: seq<int>) {
    && (forall c :: c in pages' <==> c in pages && c !in gone)
    && (forall c :: c in pages' ==> pages'[c] == if c == s then pages[c].(next := 0) else pages[c])
  }

  /** The part of a schema that is saved: its size is kept in 32 bits. */
  function Kept(s: seq<byte>): (r: seq<byte>)
    ensures r <= s && |r| == |s| % TWO_32 && |r| < TWO_32
  {
    s[..|s| % TWO_32]
  }

  /** Saving keeps a schema whole exactly when it is shorter than 2^32 bytes. */
  lemma KeptWhole(s: seq<byte>)
    ensures Kept(s) == s <==> |s| < TWO_32
  {
    if |s| < TWO_32 {
      assert |s| % TWO_32 == |s|;
    }
  }

  /** The blocks before i are full. */
  ghost predicate Filled(pages: Pages, cs: seq<int>, i: nat, capacity: nat) {
    forall j :: 0 <= j < i && j < |cs| ==> cs[j] in pages && pages[cs[j]].size == capacity
  }

  lemma ChainStarts(pages: Pages, cs: seq<int>, capacity: nat, data: seq<byte>)
    requires Linked(pages, cs)
    ensures Grown(pages, pages, cs, cs, 0) && Filled(pages, cs, 0, capacity) && |cs| > 0
    ensures Contents(pages, cs[..0]) == data[..0]
  {
  }

  lemma ChainWritten(pages: Pages, pages': Pages, pages0: Pages, cs0: seq<int>, cs: seq<int>, i: nat, capacity: nat,
                     free: seq<int>)
    requires Linked(pages, cs) && i < |cs| && Filled(pages, cs, i, capacity) && Grown(pages0, pages, cs0, cs, i)
    requires pages'.Keys == pages.Keys && forall c :: c in pages' && c != cs[i] ==> pages'[c] == pages[c]
    ensures Filled(pages', cs, i, capacity) && Grown(pages0, pages', cs0, cs, i)
    ensures Blocks(pages', free) == Blocks(pages, free)
  {
    assert forall c :: c in pages' <==> c in pages;
    forall c | c in pages0 && c !in cs0 ensures c in pages' && pages'[c] == pages0[c] {
      assert c in pages && cs[i] in cs;
      if i < |cs0| {
        assert cs[..|cs0|][i] == cs[i];
      }
    }
  }

  lemma LastBlock(pages: Pages, free: seq<int>, end: int, pageSize: nat, cs: seq<int>, i: nat)
    requires Linked(pages, cs) && Pool(pages, free, end, pageSize) && i < |cs| && pages[cs[i]].next == 0
    ensures i == |cs| - 1
  {
    NeverNull(pages, free, end, pageSize, cs);
  }

  lemma FilledStep(pages: Pages, cs: seq<int>, i: nat, capacity: nat)
    requires Filled(pages, cs, i, capacity) && i < |cs| && cs[i] in pages && pages[cs[i]].size == capacity
    ensures Filled(pages, cs, i + 1, capacity)
  {
  }

  /**
   * The outcome of saving. Every block but the last is full, and the last is only empty for an empty
   * schema; the chain is the old one cut short, or the old one and blocks that were not in use; the
   * surplus of the old chain is gone and all other blocks are as they were.
   */
  ghost predicate Saved(pages0: Pages, pages: Pages, cs0: seq<int>, cs: seq<int>, capacity: nat) {
    Packed(pages, cs, capacity) && Resized(pages0, cs0, cs) && Replaced(pages0, pages, cs0, cs)
  }

  ghost predicate Packed(pages: Pages, cs: seq<int>, capacity: nat) {
    && (forall j :: 0 <= j < |cs| ==> cs[j] in pages)
    && (forall j :: 0 <= j < |cs| - 1 ==> pages[cs[j]].size == capacity)
    && (|cs| > 1 ==> pages[cs[|cs| - 1]].size > 0)
  }

  /** The least number of blocks that hold n bytes; there is always one. */
  function BlocksFor(n: nat, capacity: nat): (k: nat)
    requires capacity > 0
    ensures k >= 1 && n <= k * capacity && (k > 1 ==> (k - 1) * capacity < n)
  {
    if n == 0 then 1 else
      DivModIdentity(n - 1, capacity);
      MulDist((n - 1) / capacity, 1, capacity);
      DivBound(n - 1, capacity);
      (n - 1) / capacity + 1
  }

  lemma {:induction false} FullBlocks(pages: Pages, cs: seq<int>, i: nat, capacity: nat)
    requires i <= |cs| && forall j :: 0 <= j < i ==> cs[j] in pages && |Used(pages[cs[j]])| == capacity
    ensures |Contents(pages, cs[..i])| == i * capacity
  {
    if i > 0 {
      hide Used;
      FullBlocks(pages, cs, i - 1, capacity);
      assert cs[..i] == cs[..i - 1] + [cs[i - 1]];
      ContentsSnoc(pages, cs[..i - 1], cs[i - 1]);
      MulDist(i - 1, 1, capacity);
    }
  }

  /** A packed chain has as many blocks as its bytes need, and no more. */
  lemma PackedCount(pages: Pages, cs: seq<int>, capacity: nat)
    requires Packed(pages, cs, capacity) && |cs| > 0 && capacity > 0 && PagesOk(pages, HEADER + capacity)
    ensures |cs| == BlocksFor(|Contents(pages, cs)|, capacity)
  {
    hide Contents, BlocksFor;
    var n := |cs| - 1;
    forall j | 0 <= j < |cs| ensures |Used(pages[cs[j]])| == pages[cs[j]].size <= capacity {
      PageSizeOk(pages, cs[j], HEADER + capacity);
    }
    FullBlocks(pages, cs, n, capacity);
    assert cs == cs[..n] + [cs[n]];
    ContentsSnoc(pages, cs[..n], cs[n]);
    BlocksUnique(|Contents(pages, cs)|, capacity, |cs|);
  }

  lemma PageSizeOk(pages: Pages, c: int, pageSize: nat)
    requires PagesOk(pages, pageSize) && c in pages
    ensures |Used(pages[c])| == pages[c].size && HEADER + pages[c].size <= pageSize
  {
    assert PageOk(pages[c], pageSize);
  }

  lemma SavedCount(pages0: Pages, pages: Pages, cs0: seq<int>, cs: seq<int>, capacity: nat)
    requires Saved(pages0, pages, cs0, cs, capacity) && |cs| > 0 && capacity > 0 && PagesOk(pages, HEADER + capacity)
    ensures |cs| == BlocksFor(|Contents(pages, cs)|, capacity)
  {
    hide Packed, Resized, Replaced, PagesOk;
    PackedCount(pages, cs, capacity);
  }

  lemma BlocksUnique(n: nat, capacity: nat, k: nat)
    requires capacity > 0 && k >= 1 && n <= (k - 1) * capacity + capacity && (k > 1 ==> (k - 1) * capacity < n)
    ensures k == BlocksFor(n, capacity)
  {
    var m := BlocksFor(n, capacity);
    hide BlocksFor;
    MulDist(k - 1, 1, capacity);
    MulDist(m - 1, 1, capacity);
    if m < k {
      MulMono(m, k - 1, capacity);
    } else if k < m {
      MulMono(k, m - 1, capacity);
    }
  }

  ghost predicate Resized(pages0: Pages, cs0: seq<int>, cs: seq<int>) {
    if |cs| <= |cs0| then cs == cs0[..|cs|]
    else cs[..|cs0|] == cs0 && forall j :: |cs0| <= j < |cs| ==> cs[j] !in pages0
  }

  ghost predicate Replaced(pages0: Pages, pages: Pages, cs0: seq<int>, cs: seq<int>) {
    && (forall c :: c in pages <==> c in cs || (c in pages0 && c !in cs0))
    && (forall c :: c in pages0 && c !in cs0 ==> pages[c] == pages0[c])
  }

  lemma ChainCut(pages: Pages, pages': Pages, pages0: Pages, cs0: seq<int>, cs: seq<int>, i: nat, capacity: nat)
    requires i < |cs| && Filled(pages, cs, i, capacity) && Grown(pages0, pages, cs0, cs, i) && Linked(pages, cs)
    requires Ended(pages, pages', cs[i], cs[i + 1..])
    requires pages[cs[i]].size > 0 || i == 0
    ensures Saved(pages0, pages', cs0, cs[..i + 1], capacity)
    ensures i + 1 <= |cs0| ==> |cs| == |cs0|
  {
    hide Packed, Resized, Replaced, Linked, Filled, Ended, Grown;
    PackedCut(pages, pages', cs, i, capacity);
    ResizedCut(pages0, pages, cs0, cs, i);
    ReplacedCut(pages0, pages, pages', cs0, cs, i);
  }

  lemma PackedCut(pages: Pages, pages': Pages, cs: seq<int>, i: nat, capacity: nat)
    requires i < |cs| && Filled(pages, cs, i, capacity) && Linked(pages, cs) && Ended(pages, pages', cs[i], cs[i + 1..])
    requires pages[cs[i]].size > 0 || i == 0
    ensures Packed(pages', cs[..i + 1], capacity)
  {
    hide Linked, Following;
    var cs' := cs[..i + 1];
    forall j | 0 <= j < |cs'| ensures cs'[j] == cs[j] && cs'[j] in pages' && pages'[cs'[j]].size == pages[cs'[j]].size {
      NotLater(pages, cs, i + 1, j);
    }
  }

  lemma NotLater(pages: Pages, cs: seq<int>, k: nat, j: nat)
    requires Linked(pages, cs) && j < k <= |cs|
    ensures cs[j] in pages && cs[j] !in cs[k..]
  {
    forall b | 0 <= b < |cs| - k ensures cs[k..][b] != cs[j] {
      assert cs[j] != cs[k + b];
    }
  }

  lemma ResizedCut(pages0: Pages, pages: Pages, cs0: seq<int>, cs: seq<int>, i: nat)
    requires i < |cs| && Grown(pages0, pages, cs0, cs, i)
    ensures Resized(pages0, cs0, cs[..i + 1]) && (i + 1 <= |cs0| ==> |cs| == |cs0|)
  {
  }

  lemma ReplacedCut(pages0: Pages, pages: Pages, pages': Pages, cs0: seq<int>, cs: seq<int>, i: nat)
    requires i < |cs| && Grown(pages0, pages, cs0, cs, i) && Linked(pages, cs)
      && Ended(pages, pages', cs[i], cs[i + 1..])
    ensures Replaced(pages0, pages', cs0, cs[..i + 1])
  {
    hide Linked, Following;
    BlocksSplit(cs, i + 1);
    BlocksSplit(cs, |cs0|);
    BlocksApart(pages, cs, i + 1);
    assert cs[..i + 1][i] == cs[i];
    CutTail(cs0, cs, i);
  }

  lemma BlocksSplit(cs: seq<int>, k: nat)
    requires k <= |cs|
    ensures forall c :: c in cs <==> c in cs[..k] || c in cs[k..]
  {
    assert cs == cs[..k] + cs[k..];
  }

  lemma BlocksApart(pages: Pages, cs: seq<int>, k: nat)
    requires Linked(pages, cs) && k <= |cs|
    ensures forall c :: c in cs[..k] ==> c !in cs[k..] && c in pages
    ensures forall c :: c in cs[k..] ==> c !in cs[..k]
  {
    forall a, b | 0 <= a < k && 0 <= b < |cs| - k ensures cs[..k][a] != cs[k..][b] {
      assert cs[a] != cs[k + b];
    }
  }

  /** Blocks cut off are blocks of the old chain. */
  lemma CutTail(cs0: seq<int>, cs: seq<int>, i: nat)
    requires i < |cs| && |cs0| <= |cs| && cs[..|cs0|] == cs0 && (|cs| > |cs0| ==> i == |cs| - 1)
    ensures forall c :: c in cs[i + 1..] ==> c in cs0
    ensures |cs| > |cs0| ==> cs[..i + 1] == cs
  {
    if |cs| == |cs0| {
      assert cs == cs0;
    }
  }

  lemma ChainAdded(pages: Pages, pages': Pages, pages0: Pages, cs0: seq<int>, cs: seq<int>, i: nat, capacity: nat,
                   added: int)
    requires i + 1 == |cs| && Linked(pages, cs) && Filled(pages, cs, i + 1, capacity)
    requires Grown(pages0, pages, cs0, cs, i) && added !in pages
    requires Appended(pages, pages', cs[i], added)
    ensures Filled(pages', cs + [added], i + 1, capacity) && Grown(pages0, pages', cs0, cs + [added], i + 1)
    ensures cs[..i + 1] == cs == (cs + [added])[..i + 1] && (cs + [added])[0] == cs[0]
  {
    hide Linked, Grown;
    var cs' := cs + [added];
    assert forall j :: 0 <= j <= i ==> cs'[j] == cs[j];
    GrownAdded(pages, pages', pages0, cs0, cs, i, added);
  }

  lemma GrownAdded(pages: Pages, pages': Pages, pages0: Pages, cs0: seq<int>, cs: seq<int>, i: nat, added: int)
    requires i + 1 == |cs| && added !in pages && Grown(pages0, pages, cs0, cs, i)
    requires Appended(pages, pages', cs[i], added)
    ensures Grown(pages0, pages', cs0, cs + [added], i + 1)
  {
    var cs' := cs + [added];
    assert cs'[..|cs0|] == cs[..|cs0|];
    assert forall c :: c in cs' <==> c in cs || c == added;
    assert i < |cs0| ==> cs[..|cs0|][i] == cs[i];
    assert cs[i] in cs;
    forall c | c in pages0 && c !in cs0 ensures c != cs[i] {
    }
  }

  /** On to the next block of the chain, which is then one of the old ones. */
  lemma ChainMoves(pages: Pages, pages0: Pages, cs0: seq<int>, cs: seq<int>, i: nat)
    requires i < |cs| && cs[i] in pages && Grown(pages0, pages, cs0, cs, i) && pages[cs[i]].next != 0
    requires pages[cs[i]].next == Following(cs, i)
    ensures i + 1 < |cs| && pages[cs[i]].next == cs[i + 1] && Grown(pages0, pages, cs0, cs, i + 1)
  {
  }

  class SchemaStore {
    const pageSize: nat
    /** The schema blocks in use, by reference. */
    var pages: Pages
    /** The free blocks, next to be used first. */
    var free: seq<int>
    /** The size of the file. */
    var end: int

    ghost predicate Valid()
      reads this
    {
      HEADER < pageSize && PagesOk(pages, pageSize) && Pool(pages, free, end, pageSize)
    }

    method AllocateBlock() returns (c: int)
      requires Valid()
      modifies this
      ensures Valid() && c !in old(pages)
      ensures pages == old(pages)[c := SchemaPage(0, 0, Fill(pageSize, 0))]
      ensures |old(free)| > 0 ==> c == old(free)[0] && free == old(free)[1..] && end == old(end)
      ensures |old(free)| == 0 ==>
                && c == old(end) && end == old(end) + 16 * pageSize && |free| == 15
                && forall i :: 0 <= i < 15 ==> free[i] == c + (i + 1) * pageSize
    {
      hide OnPage;
      if |free| == 0 {
        GrownPool(pages, free, end, pageSize, GROWTH, SchemaPage(0, 0, Fill(pageSize, 0)));
        c := end;
        free := NewBlocks(c + pageSize, pageSize, GROWTH - 1);
        end := c + GROWTH * pageSize;
      } else {
        c := free[0];
        free := free[1..];
      }
      pages := pages[c := SchemaPage(0, 0, Fill(pageSize, 0))];
    }

    method FreeBlock(c: int)
      requires Valid() && c in pages
      modifies this
      ensures Valid() && pages == old(pages) - {c} && free == [c] + old(free) && end == old(end)
      ensures Blocks(pages, free) == Blocks(old(pages), old(free))
    {
      pages := pages - {c};
      free := [c] + free;
    }

    /** Gives the blocks from `next` on back, one by one along their next references. */
    method FreeRest(next: int, ghost rest: seq<int>)
      requires Valid() && next == (if |rest| > 0 then rest[0] else 0) && (|rest| > 0 ==> Linked(pages, rest))
      modifies this
      ensures Valid() && end == old(end) && free == Reversed(rest) + old(free)
      ensures Remain(old(pages), pages, rest) && Blocks(pages, free) == Blocks(old(pages), old(free))
    {
      hide Pool, PagesOk, Reversed, Contents, Used, Linked, Blocks;
      ReversedNone<int>();
      var c := next;
      ghost var j := 0;
      while c != 0
        invariant 0 <= j <= |rest| && c == (if j < |rest| then rest[j] else 0)
        invariant Valid() && end == old(end) && free == Reversed(rest[..j]) + old(free)
        invariant Remain(old(pages), pages, rest[..j]) && Blocks(pages, free) == Blocks(old(pages), old(free))
        decreases |rest| - j
      {
        RestAt(old(pages), pages, rest, j);
        var following := pages[c].next;
        FreeBlock(c);
        ReversedStep(rest, j);
        Reassociate([c], Reversed(rest[..j]), old(free));
        c := following;
        j := j + 1;
      }
      if |rest| > 0 {
        NeverNull(old(pages), old(free), end, pageSize, rest);
      }
      assert rest[..j] == rest;
    }

    /** The bytes of the chain starting at block `start`. */
    method GetSchema(start: int, ghost cs: seq<int>) returns (result: VirtualBuffer)
      requires Valid() && Linked(pages, cs) && cs[0] == start && |Contents(pages, cs)| < TWO_64
      ensures fresh(result) && result.Valid() && result.View() == Contents(pages, cs)
    {
      result := new VirtualBuffer();
      var s := start;
      ghost var i := 0;
      while true
        invariant 0 <= i < |cs| && s == cs[i] && fresh(result) && result.Valid() && !result.modified
        invariant result.View() == Contents(pages, cs[..i])
        decreases |cs| - i
      {
        ContentsUpTo(pages, cs, i);
        var added := result.AddBuffer(pages[s].bytes, HEADER, pages[s].size);
        var next := pages[s].next;
        if next == 0 {
          assert cs[..i + 1] == cs;
          return;
        }
        s := next;
        i := i + 1;
      }
    }

    /** The next piece of the schema goes into block s. */
    method WriteBlock(s: int, schema: VirtualBuffer, size: nat, pos: nat, ghost cs: seq<int>, ghost i: nat,
                      ghost data: seq<byte>)
      requires Valid() && schema.Valid() && Linked(pages, cs) && i < |cs| && s == cs[i]
      requires size <= pageSize - HEADER && pos + size <= |data| <= |schema.View()| && |data| < TWO_32
      requires data == schema.View()[..|data|] && Contents(pages, cs[..i]) == data[..pos]
      modifies `pages
      ensures Valid() && Linked(pages, cs) && pages.Keys == old(pages).Keys
      ensures pages[s].size == size && forall c :: c in pages && c != s ==> pages[c] == old(pages)[c]
      ensures Contents(pages, cs[..i + 1]) == data[..pos + size]
    {
      hide Linked, Contents, Used, Pool, PagesOk, Reading, Flat, AllSound;
      LinkedAt(pages, cs, i);
      PageNext(pages, pageSize, s, 0);
      var buf := new byte[size];
      FullRead(pos, size, schema.totalSize);
      ghost var buf0 := buf[..];
      var got := schema.PRead(buf, size, pos, true);
      ReadAll(buf[..], buf0, schema.View(), pos, size);
      assert buf[..] == data[pos..pos + size];
      var page := pages[s];
      var page' := SchemaPage(size, page.next, page.bytes[..HEADER] + buf[..] + page.bytes[HEADER + size..]);
      SliceOf(page.bytes[..HEADER], buf[..], page.bytes[HEADER + size..], 0, size);
      PageReplaced(pages, free, end, pageSize, s, page');
      WrittenBlock(pages, cs, i, page', data, pos);
      pages := pages[s := page'];
    }

    /** Ends the chain at block s and gives the blocks behind it back. */
    method CutAfter(s: int, ghost cs: seq<int>, ghost i: nat)
      requires Valid() && Linked(pages, cs) && i < |cs| && s == cs[i]
      modifies this
      ensures Valid() && Linked(pages, cs[..i + 1]) && end == old(end) && free == Reversed(cs[i + 1..]) + old(free)
      ensures Contents(pages, cs[..i + 1]) == old(Contents(pages, cs[..i + 1]))
      ensures Ended(old(pages), pages, s, cs[i + 1..])
      ensures Blocks(pages, free) == Blocks(old(pages), old(free))
    {
      hide Pool, PagesOk, Reversed, Contents, Used, Linked, Blocks;
      LinkedAt(pages, cs, i);
      PageNext(pages, pageSize, s, 0);
      var next := pages[s].next;
      SuffixLinked(pages, cs, i, pages[s].(next := 0));
      PageReplaced(pages, free, end, pageSize, s, pages[s].(next := 0));
      pages := pages[s := pages[s].(next := 0)];
      FreeRest(next, cs[i + 1..]);
      PrefixLinked(old(pages), pages, cs, i);
    }

    /** A new block behind the last block s. */
    method AddAfter(s: int, ghost cs: seq<int>) returns (added: int)
      requires Valid() && |cs| > 0 && Linked(pages, cs) && s == cs[|cs| - 1]
      modifies this
      ensures Valid() && Linked(pages, cs + [added]) && added !in old(pages)
      ensures Contents(pages, cs) == old(Contents(pages, cs))
      ensures Appended(old(pages), pages, s, added)
      ensures Blocks(old(pages), old(free)) <= Blocks(pages, free)
      ensures end >= old(end) && (end == old(end) ==> Blocks(pages, free) == Blocks(old(pages), old(free)))
    {
      hide Pool, PagesOk, Contents, Used, Linked, NewBlocks;
      LinkedAt(pages, cs, |cs| - 1);
      added := AllocateBlock();
      BlocksTaken(old(pages), old(free), pages, free, added);
      PageNext(pages, pageSize, s, added);
      PageReplaced(pages, free, end, pageSize, s, pages[s].(next := added));
      pages := pages[s := pages[s].(next := added)];
      ExtendLinked(old(pages), pages, cs, added);
    }

    /** The block after the full block s: the next one of the chain, or a new one at its end. */
    method StepOn(s: int, ghost pages0: Pages, ghost cs0: seq<int>, ghost cs: seq<int>, ghost i: nat,
                  ghost capacity: nat)
      returns (next: int, ghost cs': seq<int>)
      requires Valid() && Linked(pages, cs) && i < |cs| && s == cs[i] && Filled(pages, cs, i, capacity)
      requires s in pages && pages[s].size == capacity && Grown(pages0, pages, cs0, cs, i) && |cs| >= |cs0|
      modifies this
      ensures Valid() && Linked(pages, cs') && i + 1 < |cs'| && next == cs'[i + 1] && cs'[0] == cs[0]
      ensures Filled(pages, cs', i + 1, capacity) && Grown(pages0, pages, cs0, cs', i + 1)
      ensures Contents(pages, cs'[..i + 1]) == old(Contents(pages, cs[..i + 1]))
      ensures |cs'| >= |cs| && (|cs'| == |cs0| ==> cs' == cs && free == old(free) && end == old(end))
      ensures Blocks(old(pages), old(free)) <= Blocks(pages, free)
      ensures end >= old(end) && (end == old(end) ==> Blocks(pages, free) == Blocks(old(pages), old(free)))
    {
      hide Linked, Contents, Used, Pool, PagesOk, Reversed, Blocks, Grown, Filled, Appended;
      LinkedAt(pages, cs, i);
      FilledStep(pages, cs, i, capacity);
      next := pages[s].next;
      cs' := cs;
      if next == 0 {
        LastBlock(pages, free, end, pageSize, cs, i);
        next := AddAfter(s, cs);
        ChainAdded(old(pages), pages, pages0, cs0, cs, i, capacity, next);
        cs' := cs + [next];
      } else {
        ChainMoves(pages, pages0, cs0, cs, i);
      }
    }

    /** The chain ends at block s. */
    method EndAt(s: int, ghost pages0: Pages, ghost cs0: seq<int>, ghost cs: seq<int>, ghost i: nat,
                 ghost capacity: nat)
      requires Valid() && Linked(pages, cs) && i < |cs| && s == cs[i] && Filled(pages, cs, i, capacity)
      requires s in pages && (pages[s].size > 0 || i == 0) && Grown(pages0, pages, cs0, cs, i)
      modifies this
      ensures Valid() && Linked(pages, cs[..i + 1]) && Saved(pages0, pages, cs0, cs[..i + 1], capacity)
      ensures Contents(pages, cs[..i + 1]) == old(Contents(pages, cs[..i + 1]))
      ensures (i + 1 <= |cs0| ==> |cs| == |cs0|) && end == old(end) && free == Reversed(cs[i + 1..]) + old(free)
      ensures Blocks(pages, free) == Blocks(old(pages), old(free))
    {
      hide Linked, Contents, Used, Pool, PagesOk, Reversed, Blocks, Grown, Filled, Ended, Saved;
      LinkedAt(pages, cs, i);
      CutAfter(s, cs, i);
      ChainCut(old(pages), pages, pages0, cs0, cs, i, capacity);
    }

    /**
     * Saves the schema over the chain cs that starts at block `start`: its blocks are filled one after
     * the other, blocks are added when they do not suffice and given back when they are too many. The
     * size is kept in 32 bits.
     */
    method SetSchema(start: int, schema: VirtualBuffer, ghost cs0: seq<int>) returns (ghost cs: seq<int>)
      requires Valid() && Linked(pages, cs0) && cs0[0] == start && schema.Valid()
      modifies this
      ensures Valid() && Linked(pages, cs) && cs[0] == start
      ensures Contents(pages, cs) == Kept(schema.View())
      ensures Saved(old(pages), pages, cs0, cs, pageSize - 20)
      ensures |cs| == BlocksFor(|Contents(pages, cs)|, pageSize - 20)
      ensures |cs| <= |cs0| ==> free == Reversed(cs0[|cs|..]) + old(free) && end == old(end)
      // no block is lost
      ensures Blocks(old(pages), old(free)) <= Blocks(pages, free)
      ensures end == old(end) ==> Blocks(pages, free) == Blocks(old(pages), old(free))
    {
      hide Linked, Contents, Used, Pool, PagesOk, Reversed, Blocks, Grown, Filled, Ended, Kept, Saved, BlocksFor;
      ghost var data := Kept(schema.View());
      var capacity: nat, remaining: nat := pageSize - HEADER, schema.totalSize % TWO_32;
      var s: int, pos: nat := start, 0;
      ghost var i: nat := 0;
      cs := cs0;
      ChainStarts(pages, cs0, capacity, data);
      while true
        invariant Valid() && schema.Valid() && Linked(pages, cs) && i < |cs| && s == cs[i] && cs[0] == start
        invariant pos + remaining == |data| && (remaining > 0 || i == 0) && Contents(pages, cs[..i]) == data[..pos]
        invariant Filled(pages, cs, i, capacity) && Grown(old(pages), pages, cs0, cs, i)
        invariant |cs| >= |cs0| && (|cs| == |cs0| ==> cs == cs0 && free == old(free) && end == old(end))
        invariant Blocks(old(pages), old(free)) <= Blocks(pages, free)
        invariant end >= old(end) && (end == old(end) ==> Blocks(pages, free) == Blocks(old(pages), old(free)))
        decreases remaining
      {
        var size := Min(capacity, remaining);
        label before:
        ghost var free0 := free;
        WriteBlock(s, schema, size, pos, cs, i, data);
        ChainWritten(old@before(pages), pages, old(pages), cs0, cs, i, capacity, free);
        pos, remaining := pos + size, remaining - size;
        if remaining == 0 {
          LinkedAt(pages, cs, i);
          EndAt(s, old(pages), cs0, cs, i, capacity);
          cs := cs[..i + 1];
          assert data[..pos] == data;
          SavedCount(old(pages), pages, cs0, cs, capacity);
          return;
        }
        s, cs := StepOn(s, old(pages), cs0, cs, i, capacity);
        i := i + 1;
      }
    }

    /** Saves a schema and loads it again: it comes back exactly when it is shorter than 2^32 bytes. */
    method SaveAndLoad(start: int, schema: VirtualBuffer, ghost cs0: seq<int>)
      returns (loaded: VirtualBuffer, ghost cs: seq<int>)
      requires Valid() && Linked(pages, cs0) && cs0[0] == start && schema.Valid()
      modifies this
      ensures Valid() && Linked(pages, cs) && cs[0] == start && fresh(loaded) && loaded.Valid()
      ensures schema.View() == old(schema.View())
      ensures loaded.View() == schema.View() <==> |schema.View()| < TWO_32
      ensures loaded.View() <= schema.View() && |loaded.View()| == |schema.View()| % TWO_32
    {
      hide Linked, Contents, Pool, PagesOk, Kept, Saved, Blocks;
      cs := SetSchema(start, schema, cs0);
      KeptWhole(schema.View());
      loaded := GetSchema(start, cs);
    }
  }
}
