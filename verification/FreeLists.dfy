/**
 * The state of the free-space allocator as values: DATA pages cut into chunks, and the doubly
 * linked lists of free chunks threaded through the chunks' own words.
 */
module FreeLists {
  import opened Bits
  import opened Words

  /** `sizeof(free_space_meta_t)`, `sizeof(free_space_link_t)`, `FREE_SPACE_JUMP` and the page header. */
  const META_SIZE: nat := 4
  const LINK_SIZE: nat := 24
  const JUMP: nat := 256
  const PAGE_HEADER: nat := 8

  type Memory = map<int, int>

  /** A chunk of a DATA page: the page, the chunk's size in bytes and whether it is free. */
  datatype Chunk = Chunk(page: int, size: int, free: bool)

  /** A write of one word. */
  function Put(mem: Memory, a: int, w: int): Memory {
    mem[a := w]
  }

  type Chunks = map<int, Chunk>

  type Lists = seq<seq<int>>

  // ---- the meta word of a chunk: 24 bits of size, 8 bits of flags, 32 bits of padding or payload ----

  function SizeOf(w: int): (size: int)
    ensures 0 <= size < 0x100_0000
  {
    w % 0x100_0000
  }

  function FlagsOf(w: int): int { w / 0x100_0000 % 0x100 }

  function UpperOf(w: int): int { w / 0x1_0000_0000 }

  function MetaWord(size: nat, flags: nat, upper: nat): (w: int)
    requires size < 0x100_0000 && flags < 0x100 && upper < 0x1_0000_0000
    ensures SizeOf(w) == size && FlagsOf(w) == flags && UpperOf(w) == upper
  {
    size + 0x100_0000 * flags + 0x1_0000_0000 * upper
  }

  predicate IsAllocated(w: int) {
    FlagsOf(w) % 2 == 1
  }

  /** A meta word, bit by bit: size in the low 24, the allocated flag in bit 24, the other flags, and the rest. */
  lemma MetaLayout(size: nat, used: nat, flags: nat, upper: nat)
    requires size < 0x100_0000 && used < 2 && flags < 0x80 && upper < 0x1_0000_0000
    ensures var w := MetaWord(size, 2 * flags + used, upper);
            && w == size + Pow2(24) * used + Pow2(25) * flags + Pow2(32) * upper
            && SizeOf(w) == size && (IsAllocated(w) <==> used == 1)
  {
    PowSquare(12, 0x1000);
    assert Pow2(25) == 2 * Pow2(24);
    Pow2Sizes();
  }

  // ---- geometry ----

  predicate PageSize(p: nat) {
    p % 4096 == 0 && 0 < p <= 0x100_0000
  }

  /** Every chunk lies in its DATA page, after the page header, on an 8-byte boundary. */
  ghost predicate InPages(p: nat, pages: set<int>, chunks: Chunks) {
    forall c :: c in chunks ==> Placed(p, pages, c, chunks[c])
  }

  predicate Placed(p: nat, pages: set<int>, c: int, chunk: Chunk) {
    && c % 8 == 0 && chunk.size % 8 == 0 && chunk.size >= 8
    && chunk.page in pages && chunk.page + PAGE_HEADER <= c && c + chunk.size <= chunk.page + p
  }

  ghost predicate Apart(chunks: Chunks) {
    forall c, d :: c in chunks && d in chunks && c < d ==> c + chunks[c].size <= d
  }

  /** The first chunk of a page follows its header; each chunk ends its page or is followed by another chunk of it. */
  ghost predicate NoGap(p: nat, pages: set<int>, chunks: Chunks) {
    && (forall q :: q in pages ==> Starts(chunks, q))
    && (forall c {:trigger Followed(p, chunks, c)} :: c in chunks ==> Followed(p, chunks, c))
  }

  predicate Starts(chunks: Chunks, q: int) {
    q + PAGE_HEADER in chunks && chunks[q + PAGE_HEADER].page == q
  }

  predicate Followed(p: nat, chunks: Chunks, c: int)
    requires c in chunks
  {
    var e := c + chunks[c].size;
    e == chunks[c].page + p || (e in chunks && chunks[e].page == chunks[c].page)
  }

  ghost predicate PagesOk(p: nat, pages: set<int>) {
    p > 0 && forall q :: q in pages ==> q % p == 0 && q % 8 == 0 && 0 < q && q + p <= TWO_64
  }

  /** DATA pages are exactly tiled by chunks. */
  ghost predicate Tiled(p: nat, pages: set<int>, chunks: Chunks) {
    PageSize(p) && PagesOk(p, pages) && InPages(p, pages, chunks) && Apart(chunks) && NoGap(p, pages, chunks)
  }

  // ---- memory ----

  /** All the words of the chunks are there. */
  ghost predicate Mapped(chunks: Chunks, mem: Memory) {
    forall c, a :: c in chunks && c <= a < c + chunks[c].size && a % 8 == 0 ==> a in mem
  }

  /** The meta words say what the chunks are. */
  ghost predicate Headed(mem: Memory, chunks: Chunks) {
    forall c :: c in chunks ==>
      c in mem && 0 <= mem[c] < TWO_64 && SizeOf(mem[c]) == chunks[c].size && (IsAllocated(mem[c]) <==> !chunks[c].free)
  }

  // ---- lists ----

  function First(list: seq<int>): int {
    if |list| == 0 then 0 else list[0]
  }

  function After(list: seq<int>, j: nat): int {
    if j + 1 < |list| then list[j + 1] else 0
  }

  function Before(list: seq<int>, j: nat): int
    requires j <= |list|
  {
    if j > 0 then list[j - 1] else 0
  }

  /** Chunk c may be on list i: a free chunk of 8 * i bytes that is not loose. */
  ghost predicate OnList(chunks: Chunks, loose: set<int>, i: int, c: int) {
    c in chunks && c !in loose && chunks[c].free && chunks[c].size == 8 * i && 8 * i >= LINK_SIZE
  }

  /** The lists hold nothing else. */
  ghost predicate Listed(chunks: Chunks, lists: Lists, loose: set<int>) {
    forall i, j :: 0 <= i < |lists| && 0 <= j < |lists[i]| ==> OnList(chunks, loose, i, lists[i][j])
  }

  /** No list holds a chunk twice. */
  ghost predicate Distinct(lists: Lists) {
    forall i, j, k :: 0 <= i < |lists| && 0 <= j < k < |lists[i]| ==> lists[i][j] != lists[i][k]
  }

  /** Every free chunk that is not loose is on the list of its size. */
  ghost predicate Complete(chunks: Chunks, lists: Lists, loose: set<int>) {
    forall c :: c in chunks && chunks[c].free && c !in loose ==>
      chunks[c].size >= LINK_SIZE && chunks[c].size / 8 < |lists| && c in lists[chunks[c].size / 8]
  }

  /** The lists hold exactly the free chunks, each once and by size; `loose` chunks are on no list. */
  ghost predicate Members(p: nat, chunks: Chunks, lists: Lists, loose: set<int>) {
    |lists| == p / 8 && Listed(chunks, lists, loose) && Distinct(lists) && Complete(chunks, lists, loose)
  }

  /** Next and previous words are mutual inverses along every list, and the heads point at the first chunks. */
  ghost predicate Threaded(mem: Memory, heads: seq<int>, lists: Lists) {
    && |heads| == |lists|
    && (forall i :: 1 <= i < |lists| ==> heads[i] == First(lists[i]))
    && (forall i, j :: 0 <= i < |lists| && 0 <= j < |lists[i]| ==> LinkAt(mem, lists[i], j))
  }

  ghost predicate LinkAt(mem: Memory, list: seq<int>, j: nat)
    requires j < |list|
  {
    && list[j] + 8 in mem && mem[list[j] + 8] == After(list, j)
    && list[j] + 16 in mem && mem[list[j] + 16] == Before(list, j)
  }

  ghost predicate Consistent(p: nat, pages: set<int>, mem: Memory, heads: seq<int>, chunks: Chunks, lists: Lists,
                             loose: set<int>)
  {
    && Tiled(p, pages, chunks)
    && Mapped(chunks, mem)
    && Headed(mem, chunks)
    && Members(p, chunks, lists, loose)
    && Threaded(mem, heads, lists)
    && loose <= chunks.Keys
  }

  /** The words of the chunks in use are the same in both memories. */
  ghost predicate UsedKept(chunks: Chunks, mem: Memory, mem': Memory) {
    forall c, a :: c in chunks && !chunks[c].free && c <= a < c + chunks[c].size && a in mem ==>
      a in mem' && mem'[a] == mem[a]
  }

  // ---- where the words of a chunk may lie ----

  /** A chunk never starts at the null address and its end is still an address. */
  lemma ChunkBounds(p: nat, pages: set<int>, chunks: Chunks, c: int)
    requires Tiled(p, pages, chunks) && c in chunks
    ensures 0 < c && c % 8 == 0 && c + chunks[c].size <= TWO_64
    ensures chunks[c].size % 8 == 0 && 8 <= chunks[c].size < p
  {
    assert Placed(p, pages, c, chunks[c]);
  }

  /** The words of one chunk are never words of another. */
  lemma WordsApart(chunks: Chunks, c: int, d: int, a: int)
    requires Apart(chunks) && c in chunks && d in chunks && c != d
    requires c <= a < c + chunks[c].size
    ensures !(d <= a < d + chunks[d].size)
  {
    if c < d {
      assert c + chunks[c].size <= d;
    } else {
      assert d + chunks[d].size <= c;
    }
  }

  /** Link words of different free chunks are different words, and none is a meta word. */
  lemma LinksApart(chunks: Chunks, c: int, d: int)
    requires Apart(chunks) && c in chunks && d in chunks && c != d
    requires chunks[c].size >= LINK_SIZE
    ensures d != c + 8 && d != c + 16
    ensures chunks[d].size >= LINK_SIZE ==> c + 8 != d + 16 && c + 16 != d + 8
  {
    WordsApart(chunks, c, d, c + 8);
    WordsApart(chunks, c, d, c + 16);
  }

  // ---- writes to link words ----

  ghost predicate LinkChunk(chunks: Chunks, c: int) {
    c in chunks && chunks[c].free && chunks[c].size >= LINK_SIZE
  }

  /** Still a memory for these chunks, the ones in use untouched since `mem`. */
  ghost predicate Intact(chunks: Chunks, mem: Memory, mem': Memory) {
    Mapped(chunks, mem') && Headed(mem', chunks) && UsedKept(chunks, mem, mem')
  }

  lemma IntactRefl(chunks: Chunks, mem: Memory)
    requires Mapped(chunks, mem) && Headed(mem, chunks)
    ensures Intact(chunks, mem, mem)
  {
  }

  /** A write to the next or previous word of a free chunk leaves meta words and chunks in use alone. */
  lemma LinkWriteIntact(p: nat, pages: set<int>, mem: Memory, mem': Memory, chunks: Chunks, d: int, off: int, w: int)
    requires Tiled(p, pages, chunks) && Intact(chunks, mem, mem')
    requires LinkChunk(chunks, d) && (off == 8 || off == 16)
    ensures Intact(chunks, mem, Put(mem', d + off, w))
  {
    hide NoGap, PagesOk, InPages, SizeOf, IsAllocated;
    var m := mem'[d + off := w];
    forall c | c in chunks ensures c in m && m[c] == mem'[c] {
      if c != d {
        LinksApart(chunks, d, c);
      }
    }
    forall c, a | c in chunks && !chunks[c].free && c <= a < c + chunks[c].size && a in mem
      ensures a in m && m[a] == mem[a]
    {
      WordsApart(chunks, d, c, d + off);
    }
  }

  ghost predicate MetaOf(chunks: Chunks, c: int, w: int) {
    c in chunks && chunks[c].free && 0 <= w < TWO_64 && SizeOf(w) == chunks[c].size && !IsAllocated(w)
  }

  /** Writing the meta word of a free chunk, size unchanged. */
  lemma MetaWriteIntact(p: nat, pages: set<int>, mem: Memory, mem': Memory, chunks: Chunks, c: int, w: int)
    requires Tiled(p, pages, chunks) && Intact(chunks, mem, mem')
    requires MetaOf(chunks, c, w)
    ensures Intact(chunks, mem, Put(mem', c, w))
  {
    hide NoGap, PagesOk, SizeOf, IsAllocated;
    assert Placed(p, pages, c, chunks[c]);
    forall d, a | d in chunks && !chunks[d].free && d <= a < d + chunks[d].size && a in mem
      ensures mem'[c := w][a] == mem[a]
    {
      WordsApart(chunks, c, d, c);
    }
  }

  // ---- taking a chunk off its list ----

  function Without(list: seq<int>, j: nat): seq<int>
    requires j < |list|
  {
    list[..j] + list[j + 1..]
  }

  function UnlinkMemory(mem: Memory, before: int, after: int): Memory {
    var m := if before != 0 then Put(mem, before + 8, after) else mem;
    if after != 0 then Put(m, after + 16, before) else m
  }

  lemma WithoutMembers(p: nat, chunks: Chunks, lists: Lists, loose: set<int>, i: nat, j: nat)
    requires Members(p, chunks, lists, loose)
    requires i < |lists| && j < |lists[i]|
    ensures Members(p, chunks, lists[i := Without(lists[i], j)], loose + {lists[i][j]})
  {
    hide Without, Listed, Distinct, Complete;
    WithoutListed(chunks, lists, loose, i, j);
    WithoutDistinct(lists, i, j);
    WithoutComplete(chunks, lists, loose, i, j);
  }

  lemma WithoutAt(list: seq<int>, j: nat)
    requires j < |list|
    ensures |Without(list, j)| == |list| - 1
    ensures forall k :: 0 <= k < |list| - 1 ==> Without(list, j)[k] == list[if k < j then k else k + 1]
  {
  }

  lemma WithoutListed(chunks: Chunks, lists: Lists, loose: set<int>, i: nat, j: nat)
    requires Listed(chunks, lists, loose) && Distinct(lists) && i < |lists| && j < |lists[i]|
    ensures Listed(chunks, lists[i := Without(lists[i], j)], loose + {lists[i][j]})
  {
    WithoutAt(lists[i], j);
    hide Without;
    var lists' := lists[i := Without(lists[i], j)];
    forall a, k | 0 <= a < |lists'| && 0 <= k < |lists'[a]|
      ensures OnList(chunks, loose + {lists[i][j]}, a, lists'[a][k])
    {
      var k0 := if a == i && k >= j then k + 1 else k;
      assert lists'[a][k] == lists[a][k0];
      if a == i {
        assert lists[i][j] != lists[i][k0];
      }
    }
  }

  lemma WithoutDistinct(lists: Lists, i: nat, j: nat)
    requires Distinct(lists) && i < |lists| && j < |lists[i]|
    ensures Distinct(lists[i := Without(lists[i], j)])
  {
    WithoutAt(lists[i], j);
    hide Without;
    var lists' := lists[i := Without(lists[i], j)];
    forall a, k, n | 0 <= a < |lists'| && 0 <= k < n < |lists'[a]| ensures lists'[a][k] != lists'[a][n] {
      var k0, n0 := if a == i && k >= j then k + 1 else k, if a == i && n >= j then n + 1 else n;
      assert lists'[a][k] == lists[a][k0] && lists'[a][n] == lists[a][n0];
    }
  }

  lemma WithoutComplete(chunks: Chunks, lists: Lists, loose: set<int>, i: nat, j: nat)
    requires Complete(chunks, lists, loose) && i < |lists| && j < |lists[i]|
    ensures Complete(chunks, lists[i := Without(lists[i], j)], loose + {lists[i][j]})
  {
    WithoutAt(lists[i], j);
    hide Without;
    var list, list' := lists[i], Without(lists[i], j);
    forall x | x in list && x != list[j] ensures x in list' {
      var k :| 0 <= k < |list| && list[k] == x;
      assert list'[if k < j then k else k - 1] == x;
    }
  }

  /** Pointers around the removed chunk. */
  lemma UnlinkThreads(mem: Memory, mem': Memory, list: seq<int>, j: nat, k: nat)
    requires j < |list| && k < |list| - 1
    requires forall m :: 0 <= m < |list| ==> LinkAt(mem, list, m)
    requires forall m, n :: 0 <= m < n < |list| ==> list[m] != list[n]
    requires forall m :: 0 <= m < |list| ==> list[m] != 0
    requires LinkAt(mem, list, if k < j then k else k + 1)
    requires var x := Without(list, j)[k];
             && x + 8 in mem' && mem'[x + 8] == (if j > 0 && x == list[j - 1] then After(list, j) else mem[x + 8])
             && x + 16 in mem' && mem'[x + 16] ==
                 (if j + 1 < |list| && x == list[j + 1] then Before(list, j) else mem[x + 16])
    ensures LinkAt(mem', Without(list, j), k)
  {
    var m := if k < j then k else k + 1;
    assert Without(list, j)[k] == list[m];
    assert j > 0 && list[m] == list[j - 1] ==> m == j - 1;
    assert j + 1 < |list| && list[m] == list[j + 1] ==> m == j + 1;
  }

  lemma UnlinkKeeps(p: nat, pages: set<int>, mem: Memory, heads: seq<int>, chunks: Chunks, lists: Lists,
                    loose: set<int>, i: nat, j: nat, mem': Memory, heads': seq<int>)
    requires Consistent(p, pages, mem, heads, chunks, lists, loose)
    requires i < |lists| && j < |lists[i]|
    requires Before(lists[i], j) < TWO_64 && After(lists[i], j) < TWO_64
    requires mem' == UnlinkMemory(mem, Before(lists[i], j), After(lists[i], j))
    requires heads' == if j == 0 then heads[i := After(lists[i], j)] else heads
    ensures Consistent(p, pages, mem', heads', chunks, lists[i := Without(lists[i], j)], loose + {lists[i][j]})
    ensures UsedKept(chunks, mem, mem')
  {
    hide Tiled, Mapped, Headed, Members, Threaded, UsedKept, UnlinkMemory, Before, After, Without;
    ListsNonNull(p, pages, chunks, lists, loose);
    Neighbours(p, chunks, lists, loose, i, j);
    UnlinkWritesIntact(p, pages, mem, chunks, Before(lists[i], j), After(lists[i], j));
    UnlinkKeepsThreads(p, pages, mem, heads, chunks, lists, loose, i, j, mem', heads');
    WithoutMembers(p, chunks, lists, loose, i, j);
  }

  lemma Neighbours(p: nat, chunks: Chunks, lists: Lists, loose: set<int>, i: nat, j: nat)
    requires Members(p, chunks, lists, loose) && i < |lists| && j < |lists[i]|
    ensures LinkChunk(chunks, lists[i][j])
    ensures Before(lists[i], j) != 0 ==> LinkChunk(chunks, Before(lists[i], j))
    ensures After(lists[i], j) != 0 ==> LinkChunk(chunks, After(lists[i], j))
  {
    hide Members, LinkChunk;
    OnLists(p, chunks, lists, loose, i, j);
    if j > 0 {
      OnLists(p, chunks, lists, loose, i, j - 1);
    }
    if j + 1 < |lists[i]| {
      OnLists(p, chunks, lists, loose, i, j + 1);
    }
  }

  lemma UnlinkWritesIntact(p: nat, pages: set<int>, mem: Memory, chunks: Chunks, b: int, n: int)
    requires Tiled(p, pages, chunks) && Mapped(chunks, mem) && Headed(mem, chunks)
    requires (b != 0 ==> LinkChunk(chunks, b)) && (n != 0 ==> LinkChunk(chunks, n))
    ensures Intact(chunks, mem, UnlinkMemory(mem, b, n))
  {
    hide Intact, Mapped, Headed, Tiled, Put, LinkChunk;
    IntactRefl(chunks, mem);
    var m1 := if b != 0 then Put(mem, b + 8, n) else mem;
    if b != 0 {
      LinkWriteIntact(p, pages, mem, mem, chunks, b, 8, n);
    }
    if n != 0 {
      LinkWriteIntact(p, pages, mem, m1, chunks, n, 16, b);
    }
  }

  lemma ListsNonNull(p: nat, pages: set<int>, chunks: Chunks, lists: Lists, loose: set<int>)
    requires Tiled(p, pages, chunks) && Members(p, chunks, lists, loose)
    ensures forall a, k :: 0 <= a < |lists| && 0 <= k < |lists[a]| ==> 0 < lists[a][k] < TWO_64
  {
    forall a, k | 0 <= a < |lists| && 0 <= k < |lists[a]| ensures 0 < lists[a][k] < TWO_64 {
      ChunkBounds(p, pages, chunks, lists[a][k]);
    }
  }

  lemma UnlinkKeepsThreads(p: nat, pages: set<int>, mem: Memory, heads: seq<int>, chunks: Chunks, lists: Lists,
                           loose: set<int>, i: nat, j: nat, mem': Memory, heads': seq<int>)
    requires Tiled(p, pages, chunks) && Members(p, chunks, lists, loose) && Threaded(mem, heads, lists)
    requires i < |lists| && j < |lists[i]| && Before(lists[i], j) < TWO_64 && After(lists[i], j) < TWO_64
    requires mem' == UnlinkMemory(mem, Before(lists[i], j), After(lists[i], j))
    requires heads' == if j == 0 then heads[i := After(lists[i], j)] else heads
    ensures Threaded(mem', heads', lists[i := Without(lists[i], j)])
  {
    hide Members, Apart, InPages, NoGap, PagesOk, LinkAt, UnlinkMemory;
    ListsNonNull(p, pages, chunks, lists, loose);
    var lists' := lists[i := Without(lists[i], j)];
    forall a, k | 0 <= a < |lists'| && 0 <= k < |lists'[a]| ensures LinkAt(mem', lists'[a], k) {
      if a == i {
        UnlinkSameList(p, mem, chunks, lists, loose, i, j, k);
      } else {
        UnlinkOtherList(p, mem, chunks, lists, loose, i, j, a, k);
      }
    }
  }

  lemma UnlinkOtherList(p: nat, mem: Memory, chunks: Chunks, lists: Lists, loose: set<int>, i: nat, j: nat,
                        a: nat, k: nat)
    requires Apart(chunks) && Members(p, chunks, lists, loose)
    requires forall a, k :: 0 <= a < |lists| && 0 <= k < |lists[a]| ==> 0 < lists[a][k] < TWO_64
    requires i < |lists| && j < |lists[i]| && a < |lists| && a != i && k < |lists[a]| && LinkAt(mem, lists[a], k)
    ensures LinkAt(UnlinkMemory(mem, Before(lists[i], j), After(lists[i], j)), lists[a], k)
  {
    var x, b, n := lists[a][k], Before(lists[i], j), After(lists[i], j);
    if b != 0 { LinksApart(chunks, x, b); }
    if n != 0 { LinksApart(chunks, x, n); }
  }

  lemma UnlinkSameList(p: nat, mem: Memory, chunks: Chunks, lists: Lists, loose: set<int>, i: nat, j: nat, k: nat)
    requires Apart(chunks) && Members(p, chunks, lists, loose)
    requires forall a, k :: 0 <= a < |lists| && 0 <= k < |lists[a]| ==> 0 < lists[a][k] < TWO_64
    requires i < |lists| && j < |lists[i]| && k < |lists[i]| - 1
    requires forall m :: 0 <= m < |lists[i]| ==> LinkAt(mem, lists[i], m)
    ensures LinkAt(UnlinkMemory(mem, Before(lists[i], j), After(lists[i], j)), Without(lists[i], j), k)
  {
    hide Members, Apart, LinkChunk, LinkAt, UnlinkMemory, Without;
    var list := lists[i];
    var k0 := if k < j then k else k + 1;
    ListDistinct(p, chunks, lists, loose, i);
    Neighbours(p, chunks, lists, loose, i, j);
    Neighbours(p, chunks, lists, loose, i, k0);
    LinkWords(mem, list, k0);
    WithoutAt(list, j);
    UnlinkWords(mem, chunks, list[k0], Before(list, j), After(list, j));
    UnlinkThreads(mem, UnlinkMemory(mem, Before(list, j), After(list, j)), list, j, k);
  }

  lemma ListDistinct(p: nat, chunks: Chunks, lists: Lists, loose: set<int>, i: nat)
    requires Members(p, chunks, lists, loose) && i < |lists|
    ensures forall m, n :: 0 <= m < n < |lists[i]| ==> lists[i][m] != lists[i][n]
  {
    hide Listed, Complete;
  }

  lemma LinkWords(mem: Memory, list: seq<int>, j: nat)
    requires j < |list| && LinkAt(mem, list, j)
    ensures list[j] + 8 in mem && list[j] + 16 in mem
  {
  }

  /** The link words of chunk x once its list was mended between b and n. */
  lemma UnlinkWords(mem: Memory, chunks: Chunks, x: int, b: int, n: int)
    requires Apart(chunks) && LinkChunk(chunks, x) && (b == 0 || LinkChunk(chunks, b))
      && (n == 0 || LinkChunk(chunks, n))
    requires x + 8 in mem && x + 16 in mem
    ensures var mem' := UnlinkMemory(mem, b, n);
            && x + 8 in mem' && mem'[x + 8] == (if b != 0 && x == b then n else mem[x + 8])
            && x + 16 in mem' && mem'[x + 16] == (if n != 0 && x == n then b else mem[x + 16])
  {
    hide Apart;
    if b != 0 && x != b { LinksApart(chunks, x, b); }
    if n != 0 && x != n { LinksApart(chunks, x, n); }
  }

  // ---- putting a chunk at the head of its list ----

  function OwnWords(mem: Memory, c: int, head: int, w: int): Memory {
    Put(Put(Put(mem, c, w), c + 8, head), c + 16, 0)
  }

  function LinkMemory(mem: Memory, c: int, head: int): Memory
    requires c in mem && c < TWO_64 && head < TWO_64
  {
    var m := OwnWords(mem, c, head, ClearAllocated(mem[c]));
    if head != 0 then Put(m, head + 16, c) else m
  }

  /** The allocated flag off and the padding cleared. */
  function ClearAllocated(w: int): (v: Word)
    ensures SizeOf(v) == SizeOf(w) && !IsAllocated(v)
    ensures v == SizeOf(w) + 0x100_0000 * (FlagsOf(w) - FlagsOf(w) % 2)
  {
    MaskAllocated(FlagsOf(w));
    MetaWord(SizeOf(w), BitAnd(FlagsOf(w), 0xFE), 0)
  }

  lemma MaskAllocated(flags: nat)
    requires flags < 0x100
    ensures BitAnd(flags, 0xFE) == flags - flags % 2
  {
    AndEven(flags, 0x7F);
    LowSevenBits(flags / 2);
  }

  lemma LowSevenBits(h: nat)
    requires h < 0x80
    ensures BitAnd(h, 0x7F) == h
  {
    SevenBits();
    hide BitAnd, Pow2;
    AndLowMask(h, 7);
    assert h % 0x80 == h;
  }

  lemma SevenBits()
    ensures Pow2(7) == 0x80
  {
    Pow2Sizes();
    assert Pow2(8) == 2 * Pow2(7);
  }

  /** The allocated flag on, all else as it was. */
  function SetAllocated(w: Word): (v: Word)
    ensures SizeOf(v) == SizeOf(w) && IsAllocated(v) && UpperOf(v) == UpperOf(w)
  {
    OrAllocated(FlagsOf(w));
    MetaWord(SizeOf(w), BitOr(FlagsOf(w), 1), UpperOf(w))
  }

  lemma OrAllocated(flags: nat)
    requires flags < 0x100
    ensures BitOr(flags, 1) < 0x100 && BitOr(flags, 1) % 2 == 1
  {
    assert BitOr(flags, 1) == 1 + 2 * BitOr(flags / 2, 0);
    OrZero(flags / 2);
  }

  lemma LinkWritesIntact(p: nat, pages: set<int>, mem: Memory, chunks: Chunks, c: int, head: int)
    requires Tiled(p, pages, chunks) && Mapped(chunks, mem) && Headed(mem, chunks)
    requires LinkChunk(chunks, c) && (head != 0 ==> LinkChunk(chunks, head))
    requires c in mem && c < TWO_64 && head < TWO_64
    ensures Intact(chunks, mem, LinkMemory(mem, c, head))
  {
    IntactRefl(chunks, mem);
    assert MetaOf(chunks, c, ClearAllocated(mem[c]));
    OwnWritesIntact(p, pages, mem, chunks, c, head, ClearAllocated(mem[c]));
    hide Intact, Mapped, Headed, Tiled, MetaOf, ClearAllocated, Put;
    if head != 0 {
      LinkWriteIntact(p, pages, mem, OwnWords(mem, c, head, ClearAllocated(mem[c])), chunks, head, 16, c);
    }
  }

  lemma OwnWritesIntact(p: nat, pages: set<int>, mem: Memory, chunks: Chunks, c: int, head: int, w: int)
    requires Tiled(p, pages, chunks) && Intact(chunks, mem, mem) && LinkChunk(chunks, c) && MetaOf(chunks, c, w)
    ensures Intact(chunks, mem, OwnWords(mem, c, head, w))
  {
    hide Tiled, Intact, LinkChunk, MetaOf, Put;
    MetaWriteIntact(p, pages, mem, mem, chunks, c, w);
    LinkWriteIntact(p, pages, mem, Put(mem, c, w), chunks, c, 8, head);
    LinkWriteIntact(p, pages, mem, Put(Put(mem, c, w), c + 8, head), chunks, c, 16, 0);
  }

  lemma LinkedMembers(p: nat, chunks: Chunks, lists: Lists, loose: set<int>, c: int)
    requires Members(p, chunks, lists, loose)
    requires LinkChunk(chunks, c) && c in loose && chunks[c].size / 8 < |lists| && chunks[c].size % 8 == 0
    ensures var i := chunks[c].size / 8;
            Members(p, chunks, lists[i := [c] + lists[i]], loose - {c})
  {
    hide Listed, Distinct, Complete;
    LinkedListed(chunks, lists, loose, c, chunks[c].size / 8);
    LinkedDistinct(chunks, lists, loose, c, chunks[c].size / 8);
    LinkedComplete(chunks, lists, loose, c, chunks[c].size / 8);
  }

  lemma LinkedListed(chunks: Chunks, lists: Lists, loose: set<int>, c: int, i: nat)
    requires Listed(chunks, lists, loose) && LinkChunk(chunks, c) && c in loose && i < |lists|
    requires chunks[c].size == 8 * i
    ensures Listed(chunks, lists[i := [c] + lists[i]], loose - {c})
  {
    var lists' := lists[i := [c] + lists[i]];
    forall a, k | 0 <= a < |lists'| && 0 <= k < |lists'[a]|
      ensures OnList(chunks, loose - {c}, a, lists'[a][k])
    {
      if a != i {
        assert lists'[a][k] == lists[a][k];
      } else if k > 0 {
        assert lists'[a][k] == lists[a][k - 1];
      }
    }
  }

  lemma LinkedDistinct(chunks: Chunks, lists: Lists, loose: set<int>, c: int, i: nat)
    requires Listed(chunks, lists, loose) && Distinct(lists) && c in loose && i < |lists|
    ensures Distinct(lists[i := [c] + lists[i]])
  {
    var lists' := lists[i := [c] + lists[i]];
    forall a, k, n | 0 <= a < |lists'| && 0 <= k < n < |lists'[a]| ensures lists'[a][k] != lists'[a][n] {
      if a != i {
        assert lists'[a][k] == lists[a][k] && lists'[a][n] == lists[a][n];
      } else {
        assert lists'[a][n] == lists[a][n - 1];
        assert k > 0 ==> lists'[a][k] == lists[a][k - 1];
      }
    }
  }

  lemma LinkedComplete(chunks: Chunks, lists: Lists, loose: set<int>, c: int, i: nat)
    requires Complete(chunks, lists, loose) && LinkChunk(chunks, c) && c in loose && i < |lists|
    requires chunks[c].size == 8 * i
    ensures Complete(chunks, lists[i := [c] + lists[i]], loose - {c})
  {
    var list' := [c] + lists[i];
    assert list'[0] == c;
    forall x | x in lists[i] ensures x in list' {
      var k :| 0 <= k < |lists[i]| && lists[i][k] == x;
      assert list'[k + 1] == x;
    }
  }

  lemma LinkThreads(p: nat, pages: set<int>, mem: Memory, heads: seq<int>, chunks: Chunks, lists: Lists,
                    loose: set<int>, c: int, i: nat)
    requires Tiled(p, pages, chunks) && Members(p, chunks, lists, loose) && Threaded(mem, heads, lists)
    requires LinkChunk(chunks, c) && c in loose && 1 <= i < |lists| && |heads| == |lists|
    requires c in mem && c < TWO_64 && heads[i] < TWO_64
    ensures Threaded(LinkMemory(mem, c, heads[i]), heads[i := c], lists[i := [c] + lists[i]])
  {
    hide Members, Apart, InPages, NoGap, PagesOk, LinkAt, LinkMemory;
    ListsNonNull(p, pages, chunks, lists, loose);
    ChunkBounds(p, pages, chunks, c);
    var lists' := lists[i := [c] + lists[i]];
    forall a, k | 0 <= a < |lists'| && 0 <= k < |lists'[a]|
      ensures LinkAt(LinkMemory(mem, c, heads[i]), lists'[a], k)
    {
      if a != i {
        LinkOther(p, mem, chunks, lists, loose, c, i, a, k);
      } else if k > 0 {
        LinkLater(p, mem, chunks, lists, loose, c, i, k - 1);
      } else {
        LinkFirst(p, mem, chunks, lists, loose, c, i);
      }
    }
  }

  lemma LinkOther(p: nat, mem: Memory, chunks: Chunks, lists: Lists, loose: set<int>, c: int, i: nat, a: nat, k: nat)
    requires Apart(chunks) && Members(p, chunks, lists, loose) && LinkChunk(chunks, c) && c in loose
    requires i < |lists| && a < |lists| && a != i && k < |lists[a]| && LinkAt(mem, lists[a], k)
    requires c in mem && c < TWO_64 && First(lists[i]) < TWO_64
    ensures LinkAt(LinkMemory(mem, c, First(lists[i])), lists[a], k)
  {
    hide Apart, Members, LinkMemory, LinkChunk;
    OnLists(p, chunks, lists, loose, a, k);
    OnFirst(p, chunks, lists, loose, i);
    LinkedWords(mem, chunks, lists[a][k], c, First(lists[i]));
  }

  lemma LinkLater(p: nat, mem: Memory, chunks: Chunks, lists: Lists, loose: set<int>, c: int, i: nat, k: nat)
    requires Apart(chunks) && Members(p, chunks, lists, loose) && LinkChunk(chunks, c) && c in loose
    requires i < |lists| && k < |lists[i]| && LinkAt(mem, lists[i], k)
    requires c in mem && c < TWO_64 && 0 < First(lists[i]) < TWO_64
    ensures LinkAt(LinkMemory(mem, c, First(lists[i])), [c] + lists[i], k + 1)
  {
    hide Apart, Members, LinkMemory, LinkChunk;
    OnLists(p, chunks, lists, loose, i, k);
    OnFirst(p, chunks, lists, loose, i);
    LinkedWords(mem, chunks, lists[i][k], c, First(lists[i]));
    ListDistinct(p, chunks, lists, loose, i);
    assert lists[i][k] == First(lists[i]) ==> k == 0;
  }

  lemma LinkFirst(p: nat, mem: Memory, chunks: Chunks, lists: Lists, loose: set<int>, c: int, i: nat)
    requires Apart(chunks) && Members(p, chunks, lists, loose) && LinkChunk(chunks, c) && c in loose
    requires i < |lists| && c in mem && c < TWO_64 && First(lists[i]) < TWO_64
    ensures LinkAt(LinkMemory(mem, c, First(lists[i])), [c] + lists[i], 0)
  {
    hide Apart, Members;
    OnFirst(p, chunks, lists, loose, i);
    var h := First(lists[i]);
    if h != 0 { LinksApart(chunks, c, h); }
  }

  /** A chunk on a list can hold links and is not loose. */
  lemma OnLists(p: nat, chunks: Chunks, lists: Lists, loose: set<int>, i: nat, j: nat)
    requires Members(p, chunks, lists, loose) && i < |lists| && j < |lists[i]|
    ensures LinkChunk(chunks, lists[i][j]) && lists[i][j] !in loose && chunks[lists[i][j]].size == 8 * i
  {
    hide Distinct, Complete;
    assert OnList(chunks, loose, i, lists[i][j]);
  }

  lemma OnFirst(p: nat, chunks: Chunks, lists: Lists, loose: set<int>, i: nat)
    requires Members(p, chunks, lists, loose) && i < |lists|
    ensures First(lists[i]) != 0 ==> LinkChunk(chunks, First(lists[i])) && First(lists[i]) !in loose
    ensures First(lists[i]) != 0 ==> chunks[First(lists[i])].size == 8 * i
  {
    hide Members, LinkChunk;
    if |lists[i]| > 0 {
      OnLists(p, chunks, lists, loose, i, 0);
    }
  }

  /** The link words of another chunk x once chunk c was put in front of chunk h. */
  lemma LinkedWords(mem: Memory, chunks: Chunks, x: int, c: int, h: int)
    requires Apart(chunks) && LinkChunk(chunks, x) && LinkChunk(chunks, c) && x != c
    requires h == 0 || (LinkChunk(chunks, h) && h != c)
    requires c in mem && c < TWO_64 && h < TWO_64 && x + 8 in mem && x + 16 in mem
    ensures var mem' := LinkMemory(mem, c, h);
            && x + 8 in mem' && mem'[x + 8] == mem[x + 8]
            && x + 16 in mem' && mem'[x + 16] == (if h != 0 && x == h then c else mem[x + 16])
  {
    hide Apart;
    LinksApart(chunks, x, c);
    if h != 0 && x != h { LinksApart(chunks, x, h); }
  }

  /** Linking a loose chunk, whatever its meta word says of the allocated flag. */
  lemma LinkKeeps(p: nat, pages: set<int>, mem: Memory, heads: seq<int>, chunks: Chunks, lists: Lists,
                  loose: set<int>, c: int)
    requires c in mem && c < TWO_64
    requires Consistent(p, pages, Put(mem, c, ClearAllocated(mem[c])), heads, chunks, lists, loose)
    requires LinkChunk(chunks, c) && c in loose
    requires 1 <= chunks[c].size / 8 < |heads| && heads[chunks[c].size / 8] < TWO_64
    ensures var i := chunks[c].size / 8;
            && |lists| == |heads|
            && Consistent(p, pages, LinkMemory(mem, c, heads[i]), heads[i := c], chunks,
                          lists[i := [c] + lists[i]], loose - {c})
            && UsedKept(chunks, mem, LinkMemory(mem, c, heads[i]))
  {
    var m := Put(mem, c, ClearAllocated(mem[c]));
    ClearTwice(mem, c, heads[chunks[c].size / 8]);
    LinkCleared(p, pages, m, heads, chunks, lists, loose, c);
    SameUsed(p, pages, mem, chunks, c, ClearAllocated(mem[c]), LinkMemory(mem, c, heads[chunks[c].size / 8]));
  }

  lemma SameUsed(p: nat, pages: set<int>, mem: Memory, chunks: Chunks, c: int, w: int, mem': Memory)
    requires Tiled(p, pages, chunks) && LinkChunk(chunks, c) && UsedKept(chunks, Put(mem, c, w), mem')
    ensures UsedKept(chunks, mem, mem')
  {
    hide InPages, NoGap, PagesOk;
    forall d, a | d in chunks && !chunks[d].free && d <= a < d + chunks[d].size && a in mem
      ensures a in mem' && mem'[a] == mem[a]
    {
      WordsApart(chunks, c, d, c);
      assert a in Put(mem, c, w);
    }
  }

  /** The allocated flag may be cleared beforehand. */
  lemma ClearTwice(mem: Memory, c: int, head: int)
    requires c in mem && c < TWO_64 && head < TWO_64
    ensures LinkMemory(Put(mem, c, ClearAllocated(mem[c])), c, head) == LinkMemory(mem, c, head)
  {
    var w := ClearAllocated(mem[c]);
    assert ClearAllocated(w) == w;
    assert OwnWords(Put(mem, c, w), c, head, w) == OwnWords(mem, c, head, w);
  }

  lemma LinkCleared(p: nat, pages: set<int>, mem: Memory, heads: seq<int>, chunks: Chunks, lists: Lists,
                    loose: set<int>, c: int)
    requires Consistent(p, pages, mem, heads, chunks, lists, loose)
    requires LinkChunk(chunks, c) && c in loose && c in mem && c < TWO_64
    requires 1 <= chunks[c].size / 8 < |heads| && heads[chunks[c].size / 8] < TWO_64
    ensures var i := chunks[c].size / 8;
            && |lists| == |heads|
            && Consistent(p, pages, LinkMemory(mem, c, heads[i]), heads[i := c], chunks,
                          lists[i := [c] + lists[i]], loose - {c})
            && UsedKept(chunks, mem, LinkMemory(mem, c, heads[i]))
  {
    var i := chunks[c].size / 8;
    ChunkBounds(p, pages, chunks, c);
    assert |heads| == |lists| && heads[i] == First(lists[i]) && |lists| == p / 8;
    HeadChunk(p, chunks, lists, loose, i);
    hide Tiled, Mapped, Headed, Members, Threaded, UsedKept, LinkMemory, LinkChunk;
    LinkWritesIntact(p, pages, mem, chunks, c, heads[i]);
    LinkThreads(p, pages, mem, heads, chunks, lists, loose, c, i);
    LinkedMembers(p, chunks, lists, loose, c);
  }

  lemma HeadChunk(p: nat, chunks: Chunks, lists: Lists, loose: set<int>, i: nat)
    requires Members(p, chunks, lists, loose) && i < |lists|
    ensures First(lists[i]) != 0 ==>
              LinkChunk(chunks, First(lists[i])) && First(lists[i]) !in loose && chunks[First(lists[i])].size == 8 * i
  {
  }

  // ---- cutting a loose chunk in two ----

  function SplitChunks(chunks: Chunks, c: int, size: int): Chunks
    requires c in chunks
  {
    chunks[c := Chunk(chunks[c].page, size, true)]
          [c + size := Chunk(chunks[c].page, chunks[c].size - size, true)]
  }

  ghost predicate Splits(chunks: Chunks, c: int, size: int) {
    c in chunks && chunks[c].free && size % 8 == 0 && 8 <= size < chunks[c].size
  }

  lemma SplitTiles(p: nat, pages: set<int>, chunks: Chunks, c: int, size: int)
    requires Tiled(p, pages, chunks) && Splits(chunks, c, size)
    ensures c + size !in chunks
    ensures Tiled(p, pages, SplitChunks(chunks, c, size))
  {
    assert c in chunks;
    hide Splits, InPages, Apart, NoGap, PagesOk, SplitChunks;
    SplitFresh(chunks, c, size);
    SplitPlaced(p, pages, chunks, c, size);
    SplitApart(chunks, c, size);
    SplitNoGap(p, pages, chunks, c, size);
  }

  lemma SplitFresh(chunks: Chunks, c: int, size: int)
    requires Apart(chunks) && Splits(chunks, c, size)
    ensures c + size !in chunks
  {
  }

  lemma SplitPlaced(p: nat, pages: set<int>, chunks: Chunks, c: int, size: int)
    requires InPages(p, pages, chunks) && Splits(chunks, c, size)
    ensures InPages(p, pages, SplitChunks(chunks, c, size))
  {
    assert Placed(p, pages, c, chunks[c]);
    forall d | d in SplitChunks(chunks, c, size) ensures Placed(p, pages, d, SplitChunks(chunks, c, size)[d]) {
      assert d in chunks ==> Placed(p, pages, d, chunks[d]);
    }
  }

  lemma SplitNoGap(p: nat, pages: set<int>, chunks: Chunks, c: int, size: int)
    requires NoGap(p, pages, chunks) && Splits(chunks, c, size) && c + size !in chunks
    ensures NoGap(p, pages, SplitChunks(chunks, c, size))
  {
    var chunks' := SplitChunks(chunks, c, size);
    assert Followed(p, chunks, c);
    forall d | d in chunks' ensures Followed(p, chunks', d) {
      if d != c && d != c + size {
        assert Followed(p, chunks, d);
      }
    }
    forall q | q in pages ensures Starts(chunks', q) {
      assert Starts(chunks, q);
    }
  }

  lemma SplitApart(chunks: Chunks, c: int, size: int)
    requires Apart(chunks) && Splits(chunks, c, size) && c + size !in chunks
    ensures Apart(SplitChunks(chunks, c, size))
  {
  }

  lemma SplitMembers(p: nat, chunks: Chunks, lists: Lists, loose: set<int>, c: int, size: int)
    requires Members(p, chunks, lists, loose) && c in loose && Splits(chunks, c, size) && c + size !in chunks
    ensures Members(p, SplitChunks(chunks, c, size), lists, loose + {c + size})
  {
    hide Distinct, Listed, Complete;
    SplitListed(chunks, lists, loose, c, size);
    SplitComplete(chunks, lists, loose, c, size);
  }

  lemma SplitListed(chunks: Chunks, lists: Lists, loose: set<int>, c: int, size: int)
    requires Listed(chunks, lists, loose) && c in loose && Splits(chunks, c, size) && c + size !in chunks
    ensures Listed(SplitChunks(chunks, c, size), lists, loose + {c + size})
  {
  }

  lemma SplitComplete(chunks: Chunks, lists: Lists, loose: set<int>, c: int, size: int)
    requires Complete(chunks, lists, loose) && c in loose && Splits(chunks, c, size)
    ensures Complete(SplitChunks(chunks, c, size), lists, loose + {c + size})
  {
  }

  /** The two meta words written by a cut. */
  function SplitMemory(mem: Memory, c: int, size: int, w: int, v: int): Memory {
    Put(Put(mem, c + size, v), c, w)
  }

  /** Writing the first word of either part touches no other chunk. */
  lemma SplitHeaders(p: nat, pages: set<int>, mem: Memory, chunks: Chunks, c: int, size: int, w: int, v: int)
    requires Tiled(p, pages, chunks) && Splits(chunks, c, size) && Mapped(chunks, mem) && Headed(mem, chunks)
    requires 0 <= w < TWO_64 && SizeOf(w) == size && !IsAllocated(w)
    requires 0 <= v < TWO_64 && SizeOf(v) == chunks[c].size - size && !IsAllocated(v)
    ensures Mapped(SplitChunks(chunks, c, size), SplitMemory(mem, c, size, w, v))
    ensures Headed(SplitMemory(mem, c, size, w, v), SplitChunks(chunks, c, size))
    ensures UsedKept(chunks, mem, SplitMemory(mem, c, size, w, v))
  {
    hide SizeOf, IsAllocated, NoGap, PagesOk, InPages;
    var mem', chunks' := SplitMemory(mem, c, size, w, v), SplitChunks(chunks, c, size);
    forall d, a | d in chunks && !chunks[d].free && d <= a < d + chunks[d].size && a in mem
      ensures a in mem' && mem'[a] == mem[a]
    {
      WordsApart(chunks, c, d, c);
      WordsApart(chunks, c, d, c + size);
    }
    forall d | d in chunks' && d != c && d != c + size ensures d in mem' && mem'[d] == mem[d] {
      assert 0 < chunks[d].size by { ChunkBounds(p, pages, chunks, d); }
    }
  }

  lemma SplitThreads(mem: Memory, heads: seq<int>, chunks: Chunks, lists: Lists, loose: set<int>, p: nat,
                     c: int, size: int, w: int, v: int)
    requires Members(p, chunks, lists, loose) && Threaded(mem, heads, lists) && Apart(chunks)
    requires c in loose && Splits(chunks, c, size)
    ensures Threaded(SplitMemory(mem, c, size, w, v), heads, lists)
  {
    forall i, j | 0 <= i < |lists| && 0 <= j < |lists[i]|
      ensures LinkAt(SplitMemory(mem, c, size, w, v), lists[i], j)
    {
      var x := lists[i][j];
      assert LinkAt(mem, lists[i], j);
      WordsApart(chunks, x, c, x + 8);
      WordsApart(chunks, x, c, x + 16);
    }
  }

  lemma SplitKeeps(p: nat, pages: set<int>, mem: Memory, heads: seq<int>, chunks: Chunks, lists: Lists,
                   loose: set<int>, c: int, size: int, w: int, v: int)
    requires Consistent(p, pages, mem, heads, chunks, lists, loose) && c in loose && Splits(chunks, c, size)
    requires 0 <= w < TWO_64 && SizeOf(w) == size && !IsAllocated(w)
    requires 0 <= v < TWO_64 && SizeOf(v) == chunks[c].size - size && !IsAllocated(v)
    ensures c + size !in chunks
    ensures Consistent(p, pages, SplitMemory(mem, c, size, w, v), heads, SplitChunks(chunks, c, size), lists,
                       loose + {c + size})
    ensures UsedKept(chunks, mem, SplitMemory(mem, c, size, w, v))
  {
    SplitKeys(chunks, c, size, loose);
    hide Mapped, Headed, Members, Threaded, UsedKept, SplitChunks, SplitMemory, InPages, NoGap, PagesOk, Splits,
      SizeOf, IsAllocated;
    SplitTiles(p, pages, chunks, c, size);
    SplitHeaders(p, pages, mem, chunks, c, size, w, v);
    SplitMembers(p, chunks, lists, loose, c, size);
    SplitThreads(mem, heads, chunks, lists, loose, p, c, size, w, v);
  }

  lemma SplitKeys(chunks: Chunks, c: int, size: int, loose: set<int>)
    requires c in chunks && loose <= chunks.Keys
    ensures loose + {c + size} <= SplitChunks(chunks, c, size).Keys
  {
  }

  // ---- handing a loose chunk out ----

  function UseChunk(chunks: Chunks, c: int): Chunks
    requires c in chunks
  {
    chunks[c := chunks[c].(free := false)]
  }

  lemma UseTiles(p: nat, pages: set<int>, chunks: Chunks, c: int)
    requires Tiled(p, pages, chunks) && c in chunks
    ensures Tiled(p, pages, UseChunk(chunks, c))
  {
    UseNoGap(p, pages, chunks, c);
    UseApart(chunks, c);
    hide NoGap, Followed, Starts, PagesOk, Apart;
    forall d | d in UseChunk(chunks, c) ensures Placed(p, pages, d, UseChunk(chunks, c)[d]) {
      assert Placed(p, pages, d, chunks[d]);
    }
  }

  lemma UseApart(chunks: Chunks, c: int)
    requires Apart(chunks) && c in chunks
    ensures Apart(UseChunk(chunks, c))
  {
  }

  lemma UseNoGap(p: nat, pages: set<int>, chunks: Chunks, c: int)
    requires NoGap(p, pages, chunks) && c in chunks
    ensures NoGap(p, pages, UseChunk(chunks, c))
  {
    var chunks' := UseChunk(chunks, c);
    forall d | d in chunks' ensures Followed(p, chunks', d) {
      assert Followed(p, chunks, d);
    }
    forall q | q in pages ensures Starts(chunks', q) {
      assert Starts(chunks, q);
    }
  }

  lemma UseMembers(p: nat, chunks: Chunks, lists: Lists, loose: set<int>, c: int)
    requires Members(p, chunks, lists, loose) && c in loose && c in chunks
    ensures Members(p, UseChunk(chunks, c), lists, loose - {c})
  {
    hide Distinct, Listed, Complete;
    UseListed(chunks, lists, loose, c);
    UseComplete(chunks, lists, loose, c);
  }

  lemma UseListed(chunks: Chunks, lists: Lists, loose: set<int>, c: int)
    requires Listed(chunks, lists, loose) && c in loose && c in chunks
    ensures Listed(UseChunk(chunks, c), lists, loose - {c})
  {
  }

  lemma UseComplete(chunks: Chunks, lists: Lists, loose: set<int>, c: int)
    requires Complete(chunks, lists, loose) && c in loose && c in chunks
    ensures Complete(UseChunk(chunks, c), lists, loose - {c})
  {
  }

  lemma UseHeaders(p: nat, pages: set<int>, mem: Memory, chunks: Chunks, c: int, w: int)
    requires Tiled(p, pages, chunks) && Mapped(chunks, mem) && Headed(mem, chunks)
    requires c in chunks && chunks[c].free && 0 <= w < TWO_64 && SizeOf(w) == chunks[c].size && IsAllocated(w)
    ensures Mapped(UseChunk(chunks, c), Put(mem, c, w)) && Headed(Put(mem, c, w), UseChunk(chunks, c))
    ensures UsedKept(chunks, mem, Put(mem, c, w))
  {
    hide SizeOf, IsAllocated, NoGap, PagesOk, InPages;
    ChunkBounds(p, pages, chunks, c);
    forall d, a | d in chunks && !chunks[d].free && d <= a < d + chunks[d].size && a in mem
      ensures a in Put(mem, c, w) && Put(mem, c, w)[a] == mem[a]
    {
      WordsApart(chunks, c, d, c);
    }
  }

  lemma UseThreads(p: nat, pages: set<int>, mem: Memory, heads: seq<int>, chunks: Chunks, lists: Lists,
                   loose: set<int>, c: int, w: int)
    requires Tiled(p, pages, chunks) && Members(p, chunks, lists, loose) && Threaded(mem, heads, lists)
    requires c in loose && c in chunks
    ensures Threaded(Put(mem, c, w), heads, lists)
  {
    ChunkBounds(p, pages, chunks, c);
    forall i, j | 0 <= i < |lists| && 0 <= j < |lists[i]| ensures LinkAt(Put(mem, c, w), lists[i], j) {
      assert LinkAt(mem, lists[i], j);
      LinksApart(chunks, lists[i][j], c);
    }
  }

  lemma UseKeeps(p: nat, pages: set<int>, mem: Memory, heads: seq<int>, chunks: Chunks, lists: Lists,
                 loose: set<int>, c: int, w: int)
    requires Consistent(p, pages, mem, heads, chunks, lists, loose) && c in loose
    requires c in chunks && chunks[c].free && 0 <= w < TWO_64 && SizeOf(w) == chunks[c].size && IsAllocated(w)
    ensures Consistent(p, pages, Put(mem, c, w), heads, UseChunk(chunks, c), lists, loose - {c})
    ensures UsedKept(chunks, mem, Put(mem, c, w))
  {
    assert UseChunk(chunks, c).Keys == chunks.Keys;
    hide Tiled, Mapped, Headed, Members, Threaded, UsedKept, UseChunk, Put, SizeOf, IsAllocated;
    UseTiles(p, pages, chunks, c);
    UseHeaders(p, pages, mem, chunks, c, w);
    UseMembers(p, chunks, lists, loose, c);
    UseThreads(p, pages, mem, heads, chunks, lists, loose, c, w);
  }

  // ---- taking a chunk back ----

  function FreeChunk(chunks: Chunks, c: int): Chunks
    requires c in chunks
  {
    chunks[c := chunks[c].(free := true)]
  }

  /** A chunk in use becomes loose once its allocated flag is off. */
  lemma FreeKeeps(p: nat, pages: set<int>, mem: Memory, heads: seq<int>, chunks: Chunks, lists: Lists,
                  loose: set<int>, c: int, w: int)
    requires Consistent(p, pages, mem, heads, chunks, lists, loose)
    requires c in chunks && !chunks[c].free && 0 <= w < TWO_64 && SizeOf(w) == chunks[c].size && !IsAllocated(w)
    ensures Consistent(p, pages, Put(mem, c, w), heads, FreeChunk(chunks, c), lists, loose + {c})
  {
    assert FreeChunk(chunks, c).Keys == chunks.Keys;
    hide Tiled, Mapped, Headed, Members, Threaded, FreeChunk, Put, SizeOf, IsAllocated;
    FreeTiles(p, pages, chunks, c);
    FreeHeaders(mem, chunks, c, w);
    FreeMembers(p, chunks, lists, loose, c);
    FreeThreads(p, pages, mem, heads, chunks, lists, loose, c, w);
  }

  lemma FreeTiles(p: nat, pages: set<int>, chunks: Chunks, c: int)
    requires Tiled(p, pages, chunks) && c in chunks
    ensures Tiled(p, pages, FreeChunk(chunks, c))
  {
    FreeNoGap(p, pages, chunks, c);
    hide NoGap, Followed, Starts, PagesOk;
    forall d | d in FreeChunk(chunks, c) ensures Placed(p, pages, d, FreeChunk(chunks, c)[d]) {
      assert Placed(p, pages, d, chunks[d]);
    }
  }

  lemma FreeNoGap(p: nat, pages: set<int>, chunks: Chunks, c: int)
    requires NoGap(p, pages, chunks) && c in chunks
    ensures NoGap(p, pages, FreeChunk(chunks, c))
  {
    var chunks' := FreeChunk(chunks, c);
    forall d | d in chunks' ensures Followed(p, chunks', d) {
      assert Followed(p, chunks, d);
    }
    forall q | q in pages ensures Starts(chunks', q) {
      assert Starts(chunks, q);
    }
  }

  lemma FreeHeaders(mem: Memory, chunks: Chunks, c: int, w: int)
    requires Mapped(chunks, mem) && Headed(mem, chunks)
    requires c in chunks && 0 <= w < TWO_64 && SizeOf(w) == chunks[c].size && !IsAllocated(w)
    ensures Mapped(FreeChunk(chunks, c), Put(mem, c, w)) && Headed(Put(mem, c, w), FreeChunk(chunks, c))
  {
    hide SizeOf, IsAllocated;
  }

  lemma FreeMembers(p: nat, chunks: Chunks, lists: Lists, loose: set<int>, c: int)
    requires Members(p, chunks, lists, loose) && c in chunks && !chunks[c].free
    ensures Members(p, FreeChunk(chunks, c), lists, loose + {c})
  {
    hide Distinct, Listed, Complete;
    FreeListed(chunks, lists, loose, c);
    FreeComplete(chunks, lists, loose, c);
  }

  lemma FreeListed(chunks: Chunks, lists: Lists, loose: set<int>, c: int)
    requires Listed(chunks, lists, loose) && c in chunks && !chunks[c].free
    ensures Listed(FreeChunk(chunks, c), lists, loose + {c})
  {
  }

  lemma FreeComplete(chunks: Chunks, lists: Lists, loose: set<int>, c: int)
    requires Complete(chunks, lists, loose) && c in chunks && !chunks[c].free
    ensures Complete(FreeChunk(chunks, c), lists, loose + {c})
  {
  }

  lemma FreeThreads(p: nat, pages: set<int>, mem: Memory, heads: seq<int>, chunks: Chunks, lists: Lists,
                    loose: set<int>, c: int, w: int)
    requires Tiled(p, pages, chunks) && Members(p, chunks, lists, loose) && Threaded(mem, heads, lists)
    requires c in chunks && !chunks[c].free
    ensures Threaded(Put(mem, c, w), heads, lists)
  {
    forall i, j | 0 <= i < |lists| && 0 <= j < |lists[i]| ensures LinkAt(Put(mem, c, w), lists[i], j) {
      assert LinkAt(mem, lists[i], j);
      LinksApart(chunks, lists[i][j], c);
    }
  }

  // ---- a fresh page ----

  /** The zeroed words of a new page. */
  function ZeroPage(p: nat, q: int): Memory {
    map a | q <= a < q + p && a % 8 == 0 :: 0
  }

  function PageChunks(p: nat, chunks: Chunks, q: int): Chunks {
    chunks[q + PAGE_HEADER := Chunk(q, p - PAGE_HEADER, true)]
  }

  ghost predicate FreshPage(p: nat, pages: set<int>, q: int) {
    PageSize(p) && q % p == 0 && q > 0 && q + p <= TWO_64 && q !in pages
  }

  lemma FreshAligned(p: nat, pages: set<int>, q: int)
    requires FreshPage(p, pages, q)
    ensures q % 8 == 0
  {
    var m := p / 8;
    var k := q / p;
    assert p == 8 * m;
    DivModIdentity(q, p);
    MulAssoc(k, 8, m);
    assert k * p == 8 * (k * m);
  }

  lemma PagesDisjoint(p: nat, q: int, r: int)
    requires p > 0 && q % p == 0 && r % p == 0 && q < r
    ensures q + p <= r
  {
    DivModIdentity(q, p);
    DivModIdentity(r, p);
    if r / p <= q / p {
      MulMono(r / p, q / p, p);
    } else {
      MulMono(q / p + 1, r / p, p);
      MulDist(q / p, 1, p);
    }
  }

  /** No chunk reaches into a page that holds none. */
  lemma OutsideFresh(p: nat, pages: set<int>, chunks: Chunks, q: int, c: int)
    requires Tiled(p, pages, chunks) && FreshPage(p, pages, q) && c in chunks
    ensures c + chunks[c].size <= q || q + p <= c
  {
    assert Placed(p, pages, c, chunks[c]);
    var r := chunks[c].page;
    if r < q {
      PagesDisjoint(p, r, q);
    } else {
      PagesDisjoint(p, q, r);
    }
  }

  lemma PageTiles(p: nat, pages: set<int>, chunks: Chunks, q: int)
    requires Tiled(p, pages, chunks) && FreshPage(p, pages, q)
    ensures q + PAGE_HEADER !in chunks
    ensures Tiled(p, pages + {q}, PageChunks(p, chunks, q))
  {
    var c := q + PAGE_HEADER;
    var chunks' := PageChunks(p, chunks, q);
    forall d | d in chunks ensures d + chunks[d].size <= q || q + p <= d {
      OutsideFresh(p, pages, chunks, q, d);
    }
    forall d | d in chunks ensures 8 <= chunks[d].size {
      ChunkBounds(p, pages, chunks, d);
    }
    FreshAligned(p, pages, q);
    PagePlaced(p, pages, chunks, q);
    PageNoGap(p, pages, chunks, q);
    hide InPages, NoGap;
  }

  lemma PagePlaced(p: nat, pages: set<int>, chunks: Chunks, q: int)
    requires InPages(p, pages, chunks) && PageSize(p) && q % 8 == 0
    ensures InPages(p, pages + {q}, PageChunks(p, chunks, q))
  {
    forall d | d in PageChunks(p, chunks, q) ensures Placed(p, pages + {q}, d, PageChunks(p, chunks, q)[d]) {
      assert d in chunks ==> Placed(p, pages, d, chunks[d]);
    }
  }

  lemma PageNoGap(p: nat, pages: set<int>, chunks: Chunks, q: int)
    requires NoGap(p, pages, chunks) && q + PAGE_HEADER !in chunks
    ensures NoGap(p, pages + {q}, PageChunks(p, chunks, q))
  {
    var chunks' := PageChunks(p, chunks, q);
    forall d | d in chunks' ensures Followed(p, chunks', d) {
      assert d in chunks ==> Followed(p, chunks, d);
    }
    forall r | r in pages + {q} ensures Starts(chunks', r) {
      assert r in pages ==> Starts(chunks, r);
    }
  }

  lemma PageHeaders(p: nat, pages: set<int>, mem: Memory, chunks: Chunks, q: int, w: int)
    requires Tiled(p, pages, chunks) && FreshPage(p, pages, q) && Mapped(chunks, mem) && Headed(mem, chunks)
    requires 0 <= w < TWO_64 && SizeOf(w) == p - PAGE_HEADER && !IsAllocated(w)
    ensures Mapped(PageChunks(p, chunks, q), Put(mem + ZeroPage(p, q), q + PAGE_HEADER, w))
    ensures Headed(Put(mem + ZeroPage(p, q), q + PAGE_HEADER, w), PageChunks(p, chunks, q))
    ensures UsedKept(chunks, mem, Put(mem + ZeroPage(p, q), q + PAGE_HEADER, w))
  {
    hide SizeOf, IsAllocated, NoGap, PagesOk, InPages, Apart;
    var mem' := Put(mem + ZeroPage(p, q), q + PAGE_HEADER, w);
    forall d, a | d in chunks && d <= a < d + chunks[d].size && a in mem ensures a in mem' && mem'[a] == mem[a] {
      OutsideFresh(p, pages, chunks, q, d);
    }
    forall d | d in chunks ensures d in mem && d != q + PAGE_HEADER && mem'[d] == mem[d] {
      ChunkBounds(p, pages, chunks, d);
      OutsideFresh(p, pages, chunks, q, d);
    }
  }

  lemma PageMembers(p: nat, chunks: Chunks, lists: Lists, loose: set<int>, q: int)
    requires Members(p, chunks, lists, loose) && q + PAGE_HEADER !in chunks
    ensures Members(p, PageChunks(p, chunks, q), lists, loose + {q + PAGE_HEADER})
  {
    hide Distinct, Listed, Complete;
    PageListed(p, chunks, lists, loose, q);
    PageComplete(p, chunks, lists, loose, q);
  }

  lemma PageListed(p: nat, chunks: Chunks, lists: Lists, loose: set<int>, q: int)
    requires Listed(chunks, lists, loose) && q + PAGE_HEADER !in chunks
    ensures Listed(PageChunks(p, chunks, q), lists, loose + {q + PAGE_HEADER})
  {
  }

  lemma PageComplete(p: nat, chunks: Chunks, lists: Lists, loose: set<int>, q: int)
    requires Complete(chunks, lists, loose)
    ensures Complete(PageChunks(p, chunks, q), lists, loose + {q + PAGE_HEADER})
  {
  }

  lemma PageThreads(p: nat, pages: set<int>, mem: Memory, heads: seq<int>, chunks: Chunks, lists: Lists,
                    loose: set<int>, q: int, w: int)
    requires Tiled(p, pages, chunks) && Members(p, chunks, lists, loose) && Threaded(mem, heads, lists)
    requires FreshPage(p, pages, q)
    ensures Threaded(Put(mem + ZeroPage(p, q), q + PAGE_HEADER, w), heads, lists)
  {
    hide InPages, NoGap, PagesOk, Apart;
    var mem' := Put(mem + ZeroPage(p, q), q + PAGE_HEADER, w);
    forall i, j | 0 <= i < |lists| && 0 <= j < |lists[i]| ensures LinkAt(mem', lists[i], j) {
      assert LinkAt(mem, lists[i], j);
      OutsideFresh(p, pages, chunks, q, lists[i][j]);
    }
  }

  lemma PageKeeps(p: nat, pages: set<int>, mem: Memory, heads: seq<int>, chunks: Chunks, lists: Lists,
                  loose: set<int>, q: int, w: int)
    requires Consistent(p, pages, mem, heads, chunks, lists, loose) && FreshPage(p, pages, q)
    requires 0 <= w < TWO_64 && SizeOf(w) == p - PAGE_HEADER && !IsAllocated(w)
    ensures q + PAGE_HEADER !in chunks
    ensures Consistent(p, pages + {q}, Put(mem + ZeroPage(p, q), q + PAGE_HEADER, w), heads,
                       PageChunks(p, chunks, q), lists, loose + {q + PAGE_HEADER})
    ensures UsedKept(chunks, mem, Put(mem + ZeroPage(p, q), q + PAGE_HEADER, w))
  {
    assert loose + {q + PAGE_HEADER} <= PageChunks(p, chunks, q).Keys;
    hide Tiled, Mapped, Headed, Members, Threaded, UsedKept, Put, PageChunks, ZeroPage, SizeOf, IsAllocated, FreshPage;
    PageTiles(p, pages, chunks, q);
    PageHeaders(p, pages, mem, chunks, q, w);
    PageMembers(p, chunks, lists, loose, q);
    PageThreads(p, pages, mem, heads, chunks, lists, loose, q, w);
  }
}
