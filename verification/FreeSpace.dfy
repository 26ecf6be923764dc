/**
 * The free-space allocator: a page of list heads indexed by chunk size, and the words of the DATA
 * pages the lists are threaded through. `FreeLists` says what its states mean.
 */
module FreeSpace {
  import opened Bits
  import opened Words
  import opened Results
  import opened FreeLists
  import opened SpaceAccounting

  /** What the caller gets: the reference past the meta data, and the size of the whole chunk. */
  datatype Space = Space(reference: int, size: int)

  /** `round_up` in 64 bits: the least multiple not below the value, unless the sum wraps. */
  function RoundUp(value: nat, multiple: nat): (r: nat)
    requires value < TWO_64 && 0 < multiple < TWO_64
    ensures r % multiple == 0
    ensures value <= r < value + multiple <==> value + multiple - 1 < TWO_64
  {
    var adjusted := (value + multiple - 1) % TWO_64;
    RoundDownMultiple(adjusted, multiple);
    adjusted - adjusted % multiple
  }

  lemma RoundDownMultiple(v: nat, m: nat)
    requires m > 0
    ensures 0 <= v % m < m && 0 <= v - v % m && (v - v % m) % m == 0
  {
    var k := v / m;
    DivModIdentity(v, m);
    DivModUnique(v - v % m, k, 0, m);
  }

  /** The bytes needed for a request, its meta data included, kept in 32 bits. */
  function Rounded(minimumSize: nat): nat
    requires minimumSize < TWO_32
  {
    RoundUp(minimumSize + META_SIZE, 8) % TWO_32
  }

  /** The head of the list of chunks of `size` bytes; offsets are taken within the page. */
  function HeadIndex(p: nat, size: nat): (r: Result<nat>)
    requires p > 0 && size < 0x100_0000
  {
    if size < 8 then Err(LogicError) else Ok(RoundUp(size, 8) % p / 8)
  }

  lemma HeadIndexOfChunk(p: nat, size: nat)
    requires size % 8 == 0 && 8 <= size < p && size < 0x100_0000
    ensures HeadIndex(p, size) == Ok(size / 8)
  {
    assert RoundUp(size, 8) == size;
    ModSmall(size, p);
  }

  /** The first head in use from index k on. */
  function FirstFrom(heads: seq<int>, k: nat): (r: nat)
    requires k <= |heads|
    ensures k <= r <= |heads| && (r < |heads| ==> heads[r] != 0)
    ensures forall j :: k <= j < r ==> heads[j] == 0
    decreases |heads| - k
  {
    if k == |heads| || heads[k] != 0 then k else FirstFrom(heads, k + 1)
  }

  /** Where the search for a larger chunk starts: small requests leave small chunks alone. */
  function SearchStart(size: nat): nat {
    if size < JUMP then JUMP / 8 else size / 8 + 1
  }

  /** The list a request of `size` bytes is served from, |heads| when a new page is needed. */
  function Fit(heads: seq<int>, size: nat): nat
    requires size / 8 < |heads| && JUMP / 8 <= |heads|
  {
    if heads[size / 8] != 0 then size / 8 else FirstFrom(heads, SearchStart(size))
  }

  /** A fresh page is cut whenever anything is left, even when what is left cannot hold a link. */
  predicate Overruns(p: nat, heads: seq<int>, size: nat)
    requires size / 8 < |heads| && JUMP / 8 <= |heads|
  {
    Fit(heads, size) == |heads| && 0 < p - 8 - size < 24
  }

  /** The chunks once `size` bytes at c are in use, the rest cut off when it is `least` bytes or more. */
  ghost function Carved(chunks: Chunks, c: int, size: int, least: int): Chunks
    requires c in chunks
  {
    UseChunk(if chunks[c].size - size >= least then SplitChunks(chunks, c, size) else chunks, c)
  }

  /** The bytes in use grow by the size of the chunk handed out, and the free bytes shrink by it. */
  lemma CarvedBytes(chunks: Chunks, c: int, size: int, least: int)
    requires c in chunks && chunks[c].free && size > 0
    requires chunks[c].size - size >= least ==> c + size !in chunks
    ensures var after := Carved(chunks, c, size, least);
            && Bytes(after, false) == Bytes(chunks, false) + after[c].size
            && Bytes(after, true) == Bytes(chunks, true) - after[c].size
  {
    CarvedBytesOf(chunks, c, size, least, true);
    CarvedBytesOf(chunks, c, size, least, false);
  }

  lemma CarvedBytesOf(chunks: Chunks, c: int, size: int, least: int, free: bool)
    requires c in chunks && chunks[c].free && size > 0
    requires chunks[c].size - size >= least ==> c + size !in chunks
    ensures var after := Carved(chunks, c, size, least);
            Bytes(after, free) == Bytes(chunks, free) + if free then -after[c].size else after[c].size
  {
    hide Bytes;
    var cut := chunks[c := Chunk(chunks[c].page, size, true)];
    var tail := Chunk(chunks[c].page, chunks[c].size - size, true);
    if chunks[c].size - size >= least {
      BytesUpdate(chunks, c, cut[c], free);
      BytesUpdate(cut, c + size, tail, free);
      BytesUpdate(cut[c + size := tail], c, cut[c].(free := false), free);
    } else {
      BytesUpdate(chunks, c, chunks[c].(free := false), free);
    }
  }

  lemma EmptyConsistent(p: nat, heads: seq<int>, lists: Lists)
    requires PageSize(p) && |heads| == |lists| == p / 8
    requires forall i :: 0 <= i < |heads| ==> heads[i] == 0
    requires forall i :: 0 <= i < |lists| ==> lists[i] == []
    ensures Consistent(p, {}, map[], heads, map[], lists, {})
  {
  }

  /** What a listed chunk's own words say. */
  lemma ListedWords(p: nat, pages: set<int>, mem: Memory, heads: seq<int>, chunks: Chunks, lists: Lists,
                    loose: set<int>, i: nat, j: nat)
    requires Consistent(p, pages, mem, heads, chunks, lists, loose)
    requires i < |lists| && j < |lists[i]|
    ensures var c := lists[i][j];
            && |heads| == |lists| == p / 8 && 3 <= i
            && c in chunks && chunks[c].free && chunks[c].size == 8 * i
            && c in mem && SizeOf(mem[c]) == 8 * i
            && c + 8 in mem && mem[c + 8] == After(lists[i], j) < TWO_64
            && c + 16 in mem && mem[c + 16] == Before(lists[i], j) < TWO_64
            && (Before(lists[i], j) == 0 <==> j == 0) && 8 * i < p
  {
    hide Tiled, Mapped, Headed, Members, LinkChunk, UsedKept;
    var list, c := lists[i], lists[i][j];
    OnLists(p, chunks, lists, loose, i, j);
    ListSizes(p, chunks, lists, loose, i, j);
    HeadedAt(mem, chunks, c);
    ChunkBounds(p, pages, chunks, c);
    ListsNonNull(p, pages, chunks, lists, loose);
    assert LinkAt(mem, list, j);
  }

  lemma ListSizes(p: nat, chunks: Chunks, lists: Lists, loose: set<int>, i: nat, j: nat)
    requires Members(p, chunks, lists, loose) && i < |lists| && j < |lists[i]|
    ensures |lists| == p / 8 && 3 <= i && lists[i][j] in chunks && chunks[lists[i][j]].free
  {
    hide Distinct, Complete;
    assert OnList(chunks, loose, i, lists[i][j]);
  }

  /** The size field replaced, flags and padding as they were. */
  function WithSize(w: Word, size: nat): (v: Word)
    requires size < 0x100_0000
    ensures SizeOf(v) == size && IsAllocated(v) == IsAllocated(w)
  {
    MetaWord(size, FlagsOf(w), UpperOf(w))
  }

  lemma UsedTrans(chunks: Chunks, chunks': Chunks, mem: Memory, mem1: Memory, mem2: Memory)
    requires UsedKept(chunks, mem, mem1) && UsedKept(chunks', mem1, mem2)
    requires forall d :: d in chunks && !chunks[d].free ==> d in chunks' && chunks'[d] == chunks[d]
    ensures UsedKept(chunks, mem, mem2)
  {
  }

  /** The memory after the rest of chunk c is cut off, linked, and c marked with word u. */
  ghost function CutMemory(mem: Memory, c: int, size: int, v: int, head: int, u: int): Memory
    requires 0 <= v < TWO_64 && c + size < TWO_64 && head < TWO_64
  {
    Put(LinkMemory(Put(mem, c + size, v), c + size, head), c, u)
  }

  /** Cutting a loose chunk, linking the rest and handing the first part out, in one go. */
  lemma CutKeeps(p: nat, pages: set<int>, mem: Memory, heads: seq<int>, chunks: Chunks, lists: Lists,
                 c: int, size: nat, w: int, v: int, u: int)
    requires Consistent(p, pages, mem, heads, chunks, lists, {c}) && Splits(chunks, c, size)
    requires chunks[c].size - size >= LINK_SIZE
    requires 0 <= w < TWO_64 && SizeOf(w) == size && !IsAllocated(w)
    requires 0 <= v < TWO_64 && SizeOf(v) == chunks[c].size - size && !IsAllocated(v)
    requires 0 <= u < TWO_64 && SizeOf(u) == size && IsAllocated(u)
    ensures var rest := (chunks[c].size - size) / 8;
            && c + size !in chunks && c + size < TWO_64 && 3 <= rest < |heads| == |lists| && heads[rest] < TWO_64
            && Consistent(p, pages, CutMemory(mem, c, size, v, heads[rest], u), heads[rest := c + size],
                          Carved(chunks, c, size, LINK_SIZE), lists[rest := [c + size] + lists[rest]], {})
            && UsedKept(chunks, mem, CutMemory(mem, c, size, v, heads[rest], u))
  {
    hide *;
    TiledOf(p, pages, mem, heads, chunks, lists, {c});
    CutFacts(p, pages, mem, chunks, c, size, w, v);
    var t, rest := c + size, (chunks[c].size - size) / 8;
    HeadBounds(p, pages, mem, heads, chunks, lists, {c}, rest);
    var mem1, chunks1 := SplitMemory(mem, c, size, w, v), SplitChunks(chunks, c, size);
    SplitKeeps(p, pages, mem, heads, chunks, lists, {c}, c, size, w, v);
    LinkCleared(p, pages, mem1, heads, chunks1, lists, {c} + {t}, t);
    assert {c} + {t} - {t} == {c};
    var mem2, heads2, lists2 := LinkMemory(mem1, t, heads[rest]), heads[rest := t], lists[rest := [t] + lists[rest]];
    UseKeeps(p, pages, mem2, heads2, chunks1, lists2, {c}, c, u);
    assert {c} - {c} == {};
    HeaderLast(mem, c, size, w, v, heads[rest], u);
    UsedAcrossCut(chunks, c, size, mem, mem1, mem2, Put(mem2, c, u));
  }

  lemma TiledOf(p: nat, pages: set<int>, mem: Memory, heads: seq<int>, chunks: Chunks, lists: Lists, loose: set<int>)
    requires Consistent(p, pages, mem, heads, chunks, lists, loose)
    ensures Tiled(p, pages, chunks)
  {
  }

  lemma CutFacts(p: nat, pages: set<int>, mem: Memory, chunks: Chunks, c: int, size: nat, w: int, v: int)
    requires Tiled(p, pages, chunks) && Splits(chunks, c, size)
    requires chunks[c].size - size >= LINK_SIZE
    ensures var t, rest, chunks1 := c + size, (chunks[c].size - size) / 8, SplitChunks(chunks, c, size);
            && p > 0 && size > 0 && t < TWO_64 && 3 <= rest < p / 8
            && c in chunks && chunks[c].free && t in chunks1 && LinkChunk(chunks1, t)
            && chunks1[t].size == chunks[c].size - size == 8 * rest
            && c in chunks1 && chunks1[c].free && chunks1[c].size == size
            && t in SplitMemory(mem, c, size, w, v) && SplitMemory(mem, c, size, w, v)[t] == v
            && Carved(chunks, c, size, LINK_SIZE) == UseChunk(chunks1, c)
  {
    hide InPages, Apart, NoGap, PagesOk, PageSize;
    ChunkBounds(p, pages, chunks, c);
    assert chunks[c].size - size == 8 * ((chunks[c].size - size) / 8);
  }

  /** What the cut relies on while it is being made. */
  lemma CutReady(p: nat, pages: set<int>, mem: Memory, heads: seq<int>, chunks: Chunks, lists: Lists, c: int, size: nat)
    returns (t: int, rest: nat, v: int, w: int, mem1: Memory, mem2: Memory, mark: int)
    requires Consistent(p, pages, mem, heads, chunks, lists, {c}) && c in chunks && chunks[c].free
    requires 8 <= size && size % 8 == 0 && chunks[c].size - size >= LINK_SIZE
    ensures c in mem && 0 <= mem[c] < TWO_64 && size < chunks[c].size < 0x100_0000 && Splits(chunks, c, size)
    ensures t == c + size && 0 < c < t < TWO_64 && rest == (chunks[c].size - size) / 8
    ensures v == MetaWord(chunks[c].size - size, 0, 0) && w == WithSize(mem[c], size)
    ensures 0 <= v < TWO_64 && SizeOf(v) == chunks[c].size - size && !IsAllocated(v)
    ensures 0 <= w < TWO_64 && SizeOf(w) == size && !IsAllocated(w)
    ensures 3 <= rest < |heads| == |lists| && 0 <= heads[rest] < TWO_64 && p > 0
    ensures HeadIndex(p, SizeOf(v)) == Ok(rest)
    ensures mem1 == SplitMemory(mem, c, size, w, v) == Put(Put(mem, t, v), c, w)
    ensures t in mem1 && mem1[t] == v
    ensures mem2 == LinkMemory(mem1, t, heads[rest]) && c in mem2 && 0 <= mem2[c] < 0x1_0000_0000_0000_0000
      && SizeOf(mem2[c]) == size
    ensures mark == SetAllocated(mem2[c]) && 0 <= mark < TWO_64 && SizeOf(mark) == size && IsAllocated(mark)
  {
    hide *;
    HeaderFacts(p, pages, mem, heads, chunks, lists, {c}, c);
    TiledOf(p, pages, mem, heads, chunks, lists, {c});
    SplitsWhen(chunks, c, size);
    CutWords(mem[c], size, chunks[c].size - size);
    v, w := MetaWord(chunks[c].size - size, 0, 0), WithSize(mem[c], size);
    CutFacts(p, pages, mem, chunks, c, size, w, v);
    t, rest := c + size, (chunks[c].size - size) / 8;
    HeadBounds(p, pages, mem, heads, chunks, lists, {c}, rest);
    HeadIndexOfChunk(p, chunks[c].size - size);
    mem1 := SplitMemory(mem, c, size, w, v);
    SplitWrites(mem, c, size, w, v);
    SplitKeeps(p, pages, mem, heads, chunks, lists, {c}, c, size, w, v);
    LinkCleared(p, pages, mem1, heads, SplitChunks(chunks, c, size), lists, {c} + {t}, t);
    mem2 := LinkMemory(mem1, t, heads[rest]);
    HeaderFacts(p, pages, mem2, heads[rest := t], SplitChunks(chunks, c, size),
                lists[rest := [t] + lists[rest]], {c} + {t} - {t}, c);
    Marked(mem2[c]);
    mark := SetAllocated(mem2[c]);
  }

  lemma SplitsWhen(chunks: Chunks, c: int, size: int)
    requires c in chunks && chunks[c].free && 8 <= size && size % 8 == 0 && chunks[c].size - size >= LINK_SIZE
    ensures Splits(chunks, c, size) && size < chunks[c].size
  {
  }

  lemma CutWords(w: Word, size: nat, remaining: nat)
    requires size < 0x100_0000 && remaining < 0x100_0000 && !IsAllocated(w)
    ensures var v := MetaWord(remaining, 0, 0);
            0 <= v < TWO_64 && SizeOf(v) == remaining && !IsAllocated(v)
    ensures 0 <= WithSize(w, size) < TWO_64 && SizeOf(WithSize(w, size)) == size && !IsAllocated(WithSize(w, size))
  {
  }

  lemma SplitWrites(mem: Memory, c: int, size: int, w: int, v: int)
    ensures Put(Put(mem, c + size, v), c, w) == SplitMemory(mem, c, size, w, v)
  {
  }

  lemma HeadBounds(p: nat, pages: set<int>, mem: Memory, heads: seq<int>, chunks: Chunks, lists: Lists, loose: set<int>,
                   i: nat)
    requires Consistent(p, pages, mem, heads, chunks, lists, loose) && 1 <= i < p / 8
    ensures |heads| == |lists| == p / 8 && heads[i] == First(lists[i]) && 0 <= heads[i] < TWO_64
    ensures heads[i] != 0 ==> |lists[i]| > 0 && 3 <= i
  {
    ListsNonNull(p, pages, chunks, lists, loose);
  }

  lemma UsedAcrossCut(chunks: Chunks, c: int, size: int, mem: Memory, mem1: Memory, mem2: Memory, mem3: Memory)
    requires c in chunks && chunks[c].free && c + size !in chunks
    requires UsedKept(chunks, mem, mem1)
    requires UsedKept(SplitChunks(chunks, c, size), mem1, mem2) && UsedKept(SplitChunks(chunks, c, size), mem2, mem3)
    ensures UsedKept(chunks, mem, mem3)
  {
    hide UsedKept;
    UsedTrans(chunks, SplitChunks(chunks, c, size), mem, mem1, mem2);
    UsedTrans(chunks, SplitChunks(chunks, c, size), mem, mem2, mem3);
  }

  /** The first meta word may be written last. */
  lemma HeaderLast(mem: Memory, c: int, size: int, w: int, v: int, head: int, u: int)
    requires 0 <= v < TWO_64 && c + size < TWO_64 && head < TWO_64 && size > 0
    ensures Put(LinkMemory(SplitMemory(mem, c, size, w, v), c + size, head), c, u) ==
            CutMemory(mem, c, size, v, head, u)
  {
  }

  lemma UsedThen(chunks: Chunks, mem: Memory, mem1: Memory, mem2: Memory)
    requires UsedKept(chunks, mem, mem1) && UsedKept(chunks, mem1, mem2)
    ensures UsedKept(chunks, mem, mem2)
  {
    UsedTrans(chunks, chunks, mem, mem1, mem2);
  }

  /** Handing out a loose chunk whole, its rest being too small for a link. */
  lemma WholeKeeps(p: nat, pages: set<int>, mem: Memory, heads: seq<int>, chunks: Chunks, lists: Lists,
                   c: int, size: nat)
    requires Consistent(p, pages, mem, heads, chunks, lists, {c})
    requires c in chunks && chunks[c].free && size <= chunks[c].size < size + LINK_SIZE && size < 0x100_0000
    ensures c in mem && 0 <= mem[c] < TWO_64 && SizeOf(mem[c]) == chunks[c].size
    ensures chunks[c].size == size ==> WithSize(mem[c], size) == mem[c]
    ensures Consistent(p, pages, Put(mem, c, SetAllocated(mem[c])), heads, Carved(chunks, c, size, LINK_SIZE),
                       lists, {})
    ensures UsedKept(chunks, mem, Put(mem, c, SetAllocated(mem[c])))
    ensures c in Carved(chunks, c, size, LINK_SIZE) && Carved(chunks, c, size, LINK_SIZE)[c].size == chunks[c].size
  {
    hide *;
    HeaderFacts(p, pages, mem, heads, chunks, lists, {c}, c);
    CarvedWhole(chunks, c, size);
    Marked(mem[c]);
    UseKeeps(p, pages, mem, heads, chunks, lists, {c}, c, SetAllocated(mem[c]));
    assert {c} - {c} == {};
  }

  lemma HeaderFacts(p: nat, pages: set<int>, mem: Memory, heads: seq<int>, chunks: Chunks, lists: Lists,
                    loose: set<int>, c: int)
    requires Consistent(p, pages, mem, heads, chunks, lists, loose) && c in chunks
    ensures c in mem && 0 <= mem[c] < TWO_64 == 0x1_0000_0000_0000_0000 && SizeOf(mem[c]) == chunks[c].size < 0x100_0000
    ensures WithSize(mem[c], chunks[c].size) == mem[c]
    ensures IsAllocated(mem[c]) <==> !chunks[c].free
    ensures c % 8 == 0 && 0 < c < TWO_64 && chunks[c].size % 8 == 0 && 8 <= chunks[c].size < p
  {
    hide Tiled, Mapped, Headed, Members, Threaded, WithSize;
    ChunkBounds(p, pages, chunks, c);
    HeadedAt(mem, chunks, c);
    WithSameSize(mem[c]);
  }

  lemma HeadedAt(mem: Memory, chunks: Chunks, c: int)
    requires Headed(mem, chunks) && c in chunks
    ensures c in mem && 0 <= mem[c] < TWO_64 && SizeOf(mem[c]) == chunks[c].size
    ensures IsAllocated(mem[c]) <==> !chunks[c].free
  {
    hide SizeOf, IsAllocated;
  }

  lemma WithSameSize(w: Word)
    ensures SizeOf(w) < 0x100_0000 && WithSize(w, SizeOf(w)) == w
  {
    DivModIdentity(w, 0x100_0000);
    DivModIdentity(w / 0x100_0000, 0x100);
    DivDiv(w, 0x100_0000, 0x100);
  }

  lemma Marked(w: Word)
    ensures SizeOf(SetAllocated(w)) == SizeOf(w) && IsAllocated(SetAllocated(w)) && 0 <= SetAllocated(w) < TWO_64
  {
  }

  lemma CarvedFirst(chunks: Chunks, c: int, size: int)
    requires c in chunks && chunks[c].size - size >= LINK_SIZE && size > 0
    ensures c in Carved(chunks, c, size, LINK_SIZE) && Carved(chunks, c, size, LINK_SIZE)[c].size == size
  {
  }

  lemma CarvedWhole(chunks: Chunks, c: int, size: int)
    requires c in chunks && chunks[c].size < size + LINK_SIZE
    ensures Carved(chunks, c, size, LINK_SIZE) == UseChunk(chunks, c)
    ensures c in UseChunk(chunks, c) && UseChunk(chunks, c)[c].size == chunks[c].size
  {
  }

  /** What a request got: a chunk that was free, cut when enough is left, now in use. */
  ghost predicate Served(before: Chunks, after: Chunks, c: int, size: nat, least: nat, r: Space) {
    && c in before && before[c].free && size <= before[c].size
    && after == Carved(before, c, size, least)
    && r.reference == c + META_SIZE && c in after && r.size == after[c].size
  }

  lemma IsServed(before: Chunks, after: Chunks, c: int, size: nat, least: nat, r: Space)
    requires c in before && before[c].free && size <= before[c].size
    requires after == Carved(before, c, size, least) && c in after
    requires r.reference == c + META_SIZE && r.size == after[c].size
    ensures Served(before, after, c, size, least, r)
  {
  }

  lemma PageSizes(p: nat)
    requires PageSize(p)
    ensures PAGE_HEADER < p <= 0x100_0000 && p % 8 == 0 && PAGE_HEADER == 8 && META_SIZE == 4 && LINK_SIZE == 24
  {
    DivModIdentity(p, 4096);
    DivModUnique(p, 512 * (p / 4096), 0, 8);
  }

  lemma FreshSizes(p: nat, pages: set<int>, q: int)
    requires FreshPage(p, pages, q)
    ensures PageSize(p) && 0 < q && q + p <= TWO_64 == 0x1_0000_0000_0000_0000
  {
  }

  lemma MetaFacts(size: nat)
    requires size < 0x100_0000
    ensures var w := MetaWord(size, 0, 0); 0 <= w < TWO_64 && SizeOf(w) == size && !IsAllocated(w)
    ensures var u := MetaWord(size, 1, 0); 0 <= u < TWO_64 && SizeOf(u) == size && IsAllocated(u)
  {
  }

  /** The sizes and words a new page is cut with. */
  lemma FreshWords(p: nat, pages: set<int>, q: int, size: nat) returns (remaining: nat, v: int, u: int)
    requires FreshPage(p, pages, q) && 8 <= size <= p - PAGE_HEADER && size % 8 == 0
    ensures PAGE_HEADER == 8 && META_SIZE == 4 && LINK_SIZE == 24
    ensures p % 8 == 0 && 8 < p <= 0x100_0000 && 0 < q && q + p <= TWO_64 == 0x1_0000_0000_0000_0000
    ensures remaining == p - PAGE_HEADER - size < 0x100_0000 && size < 0x100_0000 && remaining % 8 == 0
    ensures v == MetaWord(remaining, 0, 0) && u == MetaWord(size, 1, 0)
    ensures 0 <= u < TWO_64 && SizeOf(u) == size && IsAllocated(u)
    ensures 0 <= v < TWO_64 && SizeOf(v) == remaining && !IsAllocated(v)
    ensures remaining > 0 ==> HeadIndex(p, SizeOf(v)) == Ok(remaining / 8) && 1 <= remaining / 8 < p / 8
  {
    hide FreshPage, PageSize, HeadIndex, SizeOf, IsAllocated, MetaWord;
    FreshSizes(p, pages, q);
    PageSizes(p);
    remaining := p - PAGE_HEADER - size;
    MetaFacts(size);
    MetaFacts(remaining);
    v, u := MetaWord(remaining, 0, 0), MetaWord(size, 1, 0);
    if remaining > 0 {
      HeadIndexOfChunk(p, remaining);
    }
  }

  lemma PutTwice(mem: Memory, c: int, w: int, u: int)
    ensures Put(Put(mem, c, w), c, u) == Put(mem, c, u)
  {
  }

  lemma HeaderFirst(mem: Memory, c: int, size: int, w: int, v: int, head: int, u: int)
    requires 0 <= v < TWO_64 && c + size < TWO_64 && head < TWO_64 && size > 0
    ensures CutMemory(Put(mem, c, w), c, size, v, head, u) == CutMemory(mem, c, size, v, head, u)
  {
  }

  lemma FreshChunk(p: nat, chunks: Chunks, q: int, size: nat)
    requires PAGE_HEADER < p && q + PAGE_HEADER !in chunks && 0 < size <= p - PAGE_HEADER
    ensures var chunks1, c, rest := PageChunks(p, chunks, q), q + PAGE_HEADER, p - PAGE_HEADER - size;
            && c in chunks1 && chunks1[c].free && chunks1[c].size == p - PAGE_HEADER
            && (forall d :: d in chunks && !chunks[d].free ==> d in chunks1 && chunks1[d] == chunks[d])
            && (rest == 0 ==> Carved(chunks1, c, size, META_SIZE) == UseChunk(chunks1, c))
            && (rest >= LINK_SIZE ==> Carved(chunks1, c, size, META_SIZE) == Carved(chunks1, c, size, LINK_SIZE))
            && c in Carved(chunks1, c, size, META_SIZE)
            && (rest == 0 || rest >= META_SIZE ==> Carved(chunks1, c, size, META_SIZE)[c].size == size)
  {
  }

  /** A new page handed out whole. */
  lemma FreshWhole(p: nat, pages: set<int>, mem: Memory, heads: seq<int>, chunks: Chunks, lists: Lists, q: int,
                   size: nat)
    requires Consistent(p, pages, mem, heads, chunks, lists, {}) && FreshPage(p, pages, q)
    requires 0 < size == p - PAGE_HEADER && size < 0x100_0000
    ensures q + PAGE_HEADER !in chunks
    ensures var mem' := Put(mem + ZeroPage(p, q), q + PAGE_HEADER, MetaWord(size, 1, 0));
            && Consistent(p, pages + {q}, mem', heads,
                          Carved(PageChunks(p, chunks, q), q + PAGE_HEADER, size, META_SIZE), lists, {})
            && UsedKept(chunks, mem, mem')
  {
    hide *;
    FreshSizes(p, pages, q);
    PageSizes(p);
    MetaFacts(size);
    var c, mem0, w, u := q + PAGE_HEADER, mem + ZeroPage(p, q), MetaWord(size, 0, 0), MetaWord(size, 1, 0);
    var chunks1 := PageChunks(p, chunks, q);
    PageKeeps(p, pages, mem, heads, chunks, lists, {}, q, w);
    FreshChunk(p, chunks, q, size);
    assert {} + {c} == {c};
    UseKeeps(p, pages + {q}, Put(mem0, c, w), heads, chunks1, lists, {c}, c, u);
    assert {c} - {c} == {};
    PutTwice(mem0, c, w, u);
    UsedTrans(chunks, chunks1, mem, Put(mem0, c, w), Put(mem0, c, u));
  }

  /** The chunks once the start of a new page is in use. */
  ghost function FreshCarved(p: nat, chunks: Chunks, q: int, size: int): Chunks {
    Carved(PageChunks(p, chunks, q), q + PAGE_HEADER, size, META_SIZE)
  }

  lemma FreshCarvedIs(p: nat, chunks: Chunks, q: int, size: int)
    ensures q + PAGE_HEADER in PageChunks(p, chunks, q)
    ensures FreshCarved(p, chunks, q, size) == Carved(PageChunks(p, chunks, q), q + PAGE_HEADER, size, META_SIZE)
  {
  }

  /** A new page cut in two, the rest large enough for a link. */
  lemma FreshCut(p: nat, pages: set<int>, mem: Memory, heads: seq<int>, chunks: Chunks, lists: Lists, q: int,
                 size: nat, rest: nat, v: int, u: int)
    requires Consistent(p, pages, mem, heads, chunks, lists, {}) && FreshPage(p, pages, q)
    requires 8 <= size && size % 8 == 0 && LINK_SIZE <= p - PAGE_HEADER - size < 0x100_0000 && size < 0x100_0000
    requires rest == (p - PAGE_HEADER - size) / 8 && v == MetaWord(p - PAGE_HEADER - size, 0, 0)
      && u == MetaWord(size, 1, 0)
    ensures 0 <= v < TWO_64 && q + PAGE_HEADER + size < TWO_64
    ensures 3 <= rest < |heads| == |lists| && heads[rest] < TWO_64
    ensures q + PAGE_HEADER !in chunks && q + PAGE_HEADER in PageChunks(p, chunks, q)
    ensures var t := q + PAGE_HEADER + size;
            var mem' := CutMemory(mem + ZeroPage(p, q), q + PAGE_HEADER, size, v, heads[rest], u);
               && Consistent(p, pages + {q}, mem', heads[rest := t],
                             FreshCarved(p, chunks, q, size), lists[rest := [t] + lists[rest]], {})
               && UsedKept(chunks, mem, mem')
  {
    hide *;
    FreshCarvedIs(p, chunks, q, size);
    FreshSizes(p, pages, q);
    PageSizes(p);
    MetaFacts(size);
    MetaFacts(p - PAGE_HEADER - size);
    MetaFacts(p - PAGE_HEADER);
    var c, mem0, w0, w := q + PAGE_HEADER, mem + ZeroPage(p, q), MetaWord(p - PAGE_HEADER, 0, 0), MetaWord(size, 0, 0);
    var chunks1, mem1 := PageChunks(p, chunks, q), Put(mem0, c, w0);
    PageKeeps(p, pages, mem, heads, chunks, lists, {}, q, w0);
    FreshChunk(p, chunks, q, size);
    assert {} + {c} == {c};
    SplitsWhen(chunks1, c, size);
    CutKeeps(p, pages + {q}, mem1, heads, chunks1, lists, c, size, w, v, u);
    HeaderFirst(mem0, c, size, w0, v, heads[rest], u);
    UsedTrans(chunks, chunks1, mem, mem1, CutMemory(mem0, c, size, v, heads[rest], u));
  }

  /** A rest of 8 or 16 bytes: its head gets used although nothing may be on that list. */
  lemma FreshOverrun(mem: Memory, c: int, size: nat, v: int, u: int, over: int)
    requires 0 <= v < TWO_64 && size > 0 && c + size < TWO_64 && (over == c + size + 8 || over == c + size + 16)
    ensures var mem' := CutMemory(mem, c, size, v, 0, u); over in mem' && mem'[over] == 0
  {
    hide ClearAllocated, SizeOf, FlagsOf;
  }

  lemma CutMemoryIs(mem: Memory, c: int, size: int, v: int, head: int, u: int)
    requires 0 <= v < TWO_64 && c + size < TWO_64 && head < TWO_64
    ensures CutMemory(mem, c, size, v, head, u) == Put(LinkMemory(Put(mem, c + size, v), c + size, head), c, u)
    ensures c + size in Put(mem, c + size, v) && Put(mem, c + size, v)[c + size] == v
  {
  }

  lemma SmallHeadsNull(p: nat, pages: set<int>, mem: Memory, heads: seq<int>, chunks: Chunks, lists: Lists,
                       loose: set<int>, i: nat)
    requires Consistent(p, pages, mem, heads, chunks, lists, loose) && 1 <= i < 3 && i < |heads|
    ensures heads[i] == 0
  {
    assert Listed(chunks, lists, loose) && heads[i] == First(lists[i]);
  }

  /** No list of chunks too small for a link is ever in use, whatever the pages, chunks and lists are. */
  lemma SmallHeads(p: nat, pages: set<int>, mem: Memory, heads: seq<int>, chunks: Chunks, lists: Lists, loose: set<int>,
                   i: nat)
    requires 1 <= i < 3 && i < |heads| && heads[i] != 0
    ensures !Consistent(p, pages, mem, heads, chunks, lists, loose)
  {
    hide *;
    if Consistent(p, pages, mem, heads, chunks, lists, loose) {
      SmallHeadsNull(p, pages, mem, heads, chunks, lists, loose, i);
    }
  }

  lemma FirstIs(heads: seq<int>, k: nat, d: nat)
    requires k <= d <= |heads| && (forall j :: k <= j < d ==> heads[j] == 0) && (d < |heads| ==> heads[d] != 0)
    ensures FirstFrom(heads, k) == d
    decreases d - k
  {
    if k < d {
      FirstIs(heads, k + 1, d);
    }
  }

  /** A head is in use exactly when there is a free chunk of its size. */
  lemma HeadInUse(p: nat, pages: set<int>, mem: Memory, heads: seq<int>, chunks: Chunks, lists: Lists, i: nat)
    requires Consistent(p, pages, mem, heads, chunks, lists, {}) && 1 <= i < p / 8
    ensures |heads| == p / 8
    ensures heads[i] != 0 ==> heads[i] in chunks && chunks[heads[i]].free && chunks[heads[i]].size == 8 * i
    ensures heads[i] == 0 ==> forall c :: c in chunks && chunks[c].free ==> chunks[c].size != 8 * i
  {
    HeadBounds(p, pages, mem, heads, chunks, lists, {}, i);
    ListsNonNull(p, pages, chunks, lists, {});
    hide Tiled, Mapped, Headed, Distinct;
    forall c | c in chunks && chunks[c].free && chunks[c].size == 8 * i ensures heads[i] != 0 {
      assert c in lists[i];
    }
  }

  /** The sizes a request may be served from other than its own: no chunk below 256 bytes is cut up. */
  predicate Cuttable(size: int, wanted: int) {
    size >= 256 && size >= wanted + 8
  }

  /** A free chunk of the very size wanted, or else the smallest that may be cut up when there is none of that size. */
  ghost predicate BestFit(chunks: Chunks, c: int, size: int) {
    && c in chunks && chunks[c].free && (chunks[c].size == size || Cuttable(chunks[c].size, size))
    && (chunks[c].size != size ==>
          forall d :: d in chunks && chunks[d].free ==>
            chunks[d].size != size && (Cuttable(chunks[d].size, size) ==> chunks[c].size <= chunks[d].size))
  }

  ghost predicate NothingFits(chunks: Chunks, size: int) {
    forall c :: c in chunks && chunks[c].free ==> chunks[c].size != size && !Cuttable(chunks[c].size, size)
  }

  /** The fit policy in terms of the free chunks: the best fit, and a new page only when nothing fits. */
  lemma FitPolicy(p: nat, pages: set<int>, mem: Memory, heads: seq<int>, chunks: Chunks, lists: Lists, size: nat)
    requires Consistent(p, pages, mem, heads, chunks, lists, {}) && 8 <= size <= p - PAGE_HEADER && size % 8 == 0
    ensures size / 8 < |heads| && JUMP / 8 <= |heads| == p / 8
    ensures Fit(heads, size) == |heads| ==> NothingFits(chunks, size)
    ensures Fit(heads, size) < |heads| ==> BestFit(chunks, heads[Fit(heads, size)], size)
  {
    hide Fit, FirstFrom, Consistent;
    PolicyBounds(p, pages, mem, heads, chunks, lists, size);
    var k, start := Fit(heads, size), SearchStart(size);
    HeadInUse(p, pages, mem, heads, chunks, lists, size / 8);
    if k < |heads| {
      HeadInUse(p, pages, mem, heads, chunks, lists, k);
    }
    if k != size / 8 {
      forall d | d in chunks && chunks[d].free && Cuttable(chunks[d].size, size) ensures 8 * k <= chunks[d].size {
        NotBefore(p, pages, mem, heads, chunks, lists, start, k, d);
      }
    }
    forall d | d in chunks ensures chunks[d].size < p && chunks[d].size % 8 == 0 {
      SizeBounds(p, pages, mem, heads, chunks, lists, d);
    }
  }

  lemma SizeBounds(p: nat, pages: set<int>, mem: Memory, heads: seq<int>, chunks: Chunks, lists: Lists, d: int)
    requires Consistent(p, pages, mem, heads, chunks, lists, {}) && d in chunks
    ensures 8 <= chunks[d].size < p && chunks[d].size % 8 == 0
  {
    ChunkBounds(p, pages, chunks, d);
  }

  lemma PolicyBounds(p: nat, pages: set<int>, mem: Memory, heads: seq<int>, chunks: Chunks, lists: Lists, size: nat)
    requires Consistent(p, pages, mem, heads, chunks, lists, {}) && 8 <= size <= p - PAGE_HEADER && size % 8 == 0
    ensures 1 <= size / 8 < p / 8 == |heads| && JUMP / 8 <= p / 8 && 8 * (p / 8) == p
    ensures size / 8 < SearchStart(size) <= |heads|
    ensures Fit(heads, size) == if heads[size / 8] != 0 then size / 8 else FirstFrom(heads, SearchStart(size))
    ensures Fit(heads, size) == size / 8 ==> heads[size / 8] != 0
    ensures Fit(heads, size) != size / 8 ==> SearchStart(size) <= Fit(heads, size) <= |heads|
    ensures Fit(heads, size) != size / 8 ==> forall j :: SearchStart(size) <= j < Fit(heads, size) ==> heads[j] == 0
    ensures Fit(heads, size) < |heads| ==> heads[Fit(heads, size)] != 0
    ensures Fit(heads, size) != size / 8 ==> heads[size / 8] == 0
  {
    PageSizes(p);
    hide Tiled, Mapped, Headed, Members;
  }

  /** No chunk that may be cut up is smaller than the list found. */
  lemma NotBefore(p: nat, pages: set<int>, mem: Memory, heads: seq<int>, chunks: Chunks, lists: Lists,
                  start: nat, k: nat, d: int)
    requires Consistent(p, pages, mem, heads, chunks, lists, {}) && d in chunks && chunks[d].free
      && 1 <= start <= k <= p / 8
    requires |heads| == p / 8 && (forall j :: start <= j < k ==> heads[j] == 0) && chunks[d].size >= 8 * start
    ensures 8 * k <= chunks[d].size
  {
    hide Consistent;
    SizeBounds(p, pages, mem, heads, chunks, lists, d);
    var j := chunks[d].size / 8;
    if j < k {
      HeadInUse(p, pages, mem, heads, chunks, lists, j);
    }
  }

  /** The size asked for, its meta data and the rounding fit in 32 bits up to 0xFFFFFFF4; past that they wrap. */
  lemma RoundedFacts(minimumSize: nat)
    requires minimumSize < TWO_32
    ensures Rounded(minimumSize) % 8 == 0
    ensures minimumSize <= 0xFFFF_FFF4 ==> minimumSize + 4 <= Rounded(minimumSize) < minimumSize + 12
    ensures 0xFFFF_FFF4 < minimumSize <= 0xFFFF_FFFC ==> Rounded(minimumSize) == 0
    ensures 0xFFFF_FFFC < minimumSize ==> Rounded(minimumSize) == 8
  {
    var r := RoundUp(minimumSize + META_SIZE, 8);
    assert r == 8 * (r / 8);
    hide RoundUp;
  }

  lemma Cleared(w: Word)
    ensures 0 <= ClearAllocated(w) < TWO_64 && SizeOf(ClearAllocated(w)) == SizeOf(w) && !IsAllocated(ClearAllocated(w))
  {
  }

  lemma FreedFacts(chunks: Chunks, c: int)
    requires c in chunks
    ensures c in FreeChunk(chunks, c) && FreeChunk(chunks, c)[c].size == chunks[c].size && LINK_SIZE == 24
    ensures chunks[c].size >= LINK_SIZE ==> LinkChunk(FreeChunk(chunks, c), c)
  {
  }

  /** The chunk handed out is in use, large enough, and overlaps none in use before, all of which stay as they were. */
  ghost predicate TakenSafely(before: Chunks, after: Chunks, size: nat, r: Space) {
    var c := r.reference - 4;
    && c in after && !after[c].free && size <= r.size == after[c].size
    && forall d :: d in before && !before[d].free ==>
         d in after && after[d] == before[d] && d != c && (d + before[d].size <= c || c + r.size <= d)
  }

  /** A release moves exactly the size of the chunk from the bytes in use to the free bytes. */
  lemma FreedBytes(chunks: Chunks, c: int)
    requires c in chunks && !chunks[c].free
    ensures c in FreeChunk(chunks, c) && FreeChunk(chunks, c)[c].size == chunks[c].size
    ensures Bytes(FreeChunk(chunks, c), false) == Bytes(chunks, false) - chunks[c].size
    ensures Bytes(FreeChunk(chunks, c), true) == Bytes(chunks, true) + chunks[c].size
  {
    hide Bytes;
    BytesUpdate(chunks, c, chunks[c].(free := true), true);
    BytesUpdate(chunks, c, chunks[c].(free := true), false);
  }

  /**
   * A served request takes a chunk no one was using, leaves every chunk in use where it was, overlaps none,
   * and moves exactly its size from the free bytes to the bytes in use. Its reference is no multiple of 8.
   */
  lemma ServedSafely(p: nat, pages: set<int>, before: Chunks, after: Chunks, c: int, size: nat, least: nat, r: Space)
    requires Tiled(p, pages, before) && Served(before, after, c, size, least, r) && 8 <= size && size % 8 == 0
      && 0 < least
    ensures TakenSafely(before, after, size, r)
    ensures Bytes(after, false) == Bytes(before, false) + r.size
    ensures Bytes(after, true) == Bytes(before, true) - r.size
    ensures r.reference % 8 == 4
  {
    hide Tiled, Bytes, Carved;
    ChunkBounds(p, pages, before, c);
    CarvedFresh(p, pages, before, c, size, least);
    CarvedBytes(before, c, size, least);
    CarvedOthers(p, pages, before, c, size, least);
  }

  /** The bytes in use grow by the size of the chunk; with the free bytes they still fill the pages. */
  ghost predicate Accounted(p: nat, pages: set<int>, before: Chunks, after: Chunks, r: Space) {
    && Bytes(after, false) == Bytes(before, false) + r.size
    && Bytes(after, false) + Bytes(after, true) == |pages| * (p - 8)
  }

  /** What one request amounts to: policy, safety and accounting. */
  ghost predicate Granted(p: nat, pages: set<int>, before: Chunks, pages': set<int>, after: Chunks, size: nat,
                          r: Space)
  {
    && TakenSafely(before, after, size, r) && Accounted(p, pages', before, after, r)
    && (if pages' == pages then
          BestFit(before, r.reference - 4, size) && CutFrom(before, after, r.reference - 4, size, 24, r)
        else
          NothingFits(before, size) && r.size == size && exists q: int :: q in pages' && r.reference == q + 12)
    && r.reference % 8 == 4
  }

  /** The chunk handed out has the size wanted when `least` bytes or more remain, which stay behind as a free chunk. */
  ghost predicate CutFrom(before: Chunks, after: Chunks, c: int, size: nat, least: nat, r: Space) {
    && c in before
    && var whole := before[c].size;
       if whole - size >= least then
         r.size == size && c + size in after && after[c + size] == Chunk(before[c].page, whole - size, true)
       else
         r.size == whole
  }

  lemma CutIs(before: Chunks, after: Chunks, c: int, size: nat, least: nat, r: Space)
    requires Served(before, after, c, size, least, r) && size > 0
    ensures CutFrom(before, after, c, size, least, r)
  {
  }

  lemma GrantedFromList(p: nat, pages: set<int>, mem: Memory, heads: seq<int>, chunks: Chunks, lists: Lists,
                        size: nat, after: Chunks, r: Space)
    requires Consistent(p, pages, mem, heads, chunks, lists, {}) && 8 <= size <= p - PAGE_HEADER && size % 8 == 0
    requires size / 8 < |heads| && JUMP / 8 <= |heads| && Fit(heads, size) < |heads|
    requires Served(chunks, after, heads[Fit(heads, size)], size, LINK_SIZE, r)
    ensures Granted(p, pages, chunks, pages, after, size, r)
    ensures r.reference % 8 == 4
  {
    hide Consistent, Tiled, Bytes, BestFit, TakenSafely, Fit, CutFrom;
    TiledOf(p, pages, mem, heads, chunks, lists, {});
    FitPolicy(p, pages, mem, heads, chunks, lists, size);
    ServedSafely(p, pages, chunks, after, heads[Fit(heads, size)], size, LINK_SIZE, r);
    CutIs(chunks, after, heads[Fit(heads, size)], size, LINK_SIZE, r);
    Conserved(p, pages, chunks);
  }

  lemma GrantedFromPage(p: nat, pages: set<int>, mem: Memory, heads: seq<int>, chunks: Chunks, lists: Lists, q: int,
                        size: nat, after: Chunks, r: Space)
    requires Consistent(p, pages, mem, heads, chunks, lists, {}) && 8 <= size <= p - PAGE_HEADER && size % 8 == 0
    requires size / 8 < |heads| && JUMP / 8 <= |heads| && Fit(heads, size) == |heads| && FreshPage(p, pages, q)
    requires Served(PageChunks(p, chunks, q), after, q + PAGE_HEADER, size, META_SIZE, r)
    ensures Granted(p, pages, chunks, pages + {q}, after, size, r)
    ensures r.reference % 8 == 4
  {
    hide Consistent, Tiled, Bytes, NothingFits, Fit, PageChunks, TakenSafely, Served;
    var whole := PageChunks(p, chunks, q);
    TiledOf(p, pages, mem, heads, chunks, lists, {});
    FitPolicy(p, pages, mem, heads, chunks, lists, size);
    PageTiles(p, pages, chunks, q);
    ServedSafely(p, pages + {q}, whole, after, q + PAGE_HEADER, size, META_SIZE, r);
    SafelyBeside(p, chunks, q, size, after, r);
    FreshServed(p, chunks, q, size, after, r);
    Conserved(p, pages + {q}, whole);
    PageBytes(p, chunks, q);
  }

  lemma FreshServed(p: nat, chunks: Chunks, q: int, size: nat, after: Chunks, r: Space)
    requires Served(PageChunks(p, chunks, q), after, q + PAGE_HEADER, size, META_SIZE, r)
    requires PageSize(p) && 8 <= size && size % 8 == 0
    ensures r.size == size && r.reference == q + 12
  {
    hide Served, PageSize, PageChunks, Carved;
    PageSizes(p);
    FreshWholeChunk(p, chunks, q);
    ServedFits(PageChunks(p, chunks, q), after, q + PAGE_HEADER, size, META_SIZE, r);
    CutIs(PageChunks(p, chunks, q), after, q + PAGE_HEADER, size, META_SIZE, r);
  }

  lemma FreshWholeChunk(p: nat, chunks: Chunks, q: int)
    ensures q + PAGE_HEADER in PageChunks(p, chunks, q)
    ensures PageChunks(p, chunks, q)[q + PAGE_HEADER].size == p - PAGE_HEADER
  {
  }

  lemma ServedFits(before: Chunks, after: Chunks, c: int, size: nat, least: nat, r: Space)
    requires Served(before, after, c, size, least, r)
    ensures c in before && size <= before[c].size && r.reference == c + META_SIZE
  {
  }

  lemma SafelyBeside(p: nat, chunks: Chunks, q: int, size: nat, after: Chunks, r: Space)
    requires q + PAGE_HEADER !in chunks && TakenSafely(PageChunks(p, chunks, q), after, size, r)
    ensures TakenSafely(chunks, after, size, r)
  {
  }

  lemma CarvedFresh(p: nat, pages: set<int>, chunks: Chunks, c: int, size: nat, least: nat)
    requires Tiled(p, pages, chunks) && c in chunks && chunks[c].free && 0 < least && 8 <= size <= chunks[c].size
    ensures chunks[c].size - size >= least ==> c + size !in chunks
  {
    hide InPages, NoGap, PagesOk, PageSize;
  }

  lemma CarvedOthers(p: nat, pages: set<int>, chunks: Chunks, c: int, size: nat, least: nat)
    requires Tiled(p, pages, chunks) && c in chunks && chunks[c].free && 0 < least && 8 <= size <= chunks[c].size
    requires chunks[c].size - size >= least ==> c + size !in chunks
    ensures var after := Carved(chunks, c, size, least);
            && c in after && !after[c].free && size <= after[c].size
            && forall d :: d in chunks && !chunks[d].free ==>
                 d in after && after[d] == chunks[d] && (d + chunks[d].size <= c || c + after[c].size <= d)
  {
    hide InPages, NoGap, PagesOk, PageSize;
    var after := Carved(chunks, c, size, least);
    assert c in after && !after[c].free && size <= after[c].size <= chunks[c].size;
    forall d | d in chunks && !chunks[d].free
      ensures d in after && after[d] == chunks[d] && (d + chunks[d].size <= c || c + after[c].size <= d)
    {
      if d < c {
        assert d + chunks[d].size <= c;
      } else {
        assert c + chunks[c].size <= d;
      }
    }
  }

  /** A new page adds its space to the free bytes. */
  lemma PageBytes(p: nat, chunks: Chunks, q: int)
    requires p > PAGE_HEADER && q + PAGE_HEADER !in chunks
    ensures Bytes(PageChunks(p, chunks, q), true) == Bytes(chunks, true) + p - PAGE_HEADER
    ensures Bytes(PageChunks(p, chunks, q), false) == Bytes(chunks, false)
  {
    hide Bytes;
    BytesUpdate(chunks, q + PAGE_HEADER, Chunk(q, p - PAGE_HEADER, true), true);
    BytesUpdate(chunks, q + PAGE_HEADER, Chunk(q, p - PAGE_HEADER, true), false);
  }

  /** With nothing free, a request of 4068 bytes leaves 16 bytes of a 4096-byte page, one of 4076 leaves 8. */
  lemma OverrunExample(heads: seq<int>)
    requires |heads| == 512 && forall i :: 0 <= i < 512 ==> heads[i] == 0
    ensures Rounded(4068) == 4072 && Rounded(4076) == 4080
    ensures Overruns(4096, heads, Rounded(4068)) && Overruns(4096, heads, Rounded(4076))
  {
    hide Overruns, Rounded;
    RoundedFacts(4068);
    RoundedFacts(4076);
    OverrunsAt(heads, 4072);
    OverrunsAt(heads, 4080);
  }

  lemma OverrunsAt(heads: seq<int>, size: nat)
    requires |heads| == 512 && forall i :: 0 <= i < 512 ==> heads[i] == 0
    requires size == 4072 || size == 4080
    ensures Overruns(4096, heads, size)
  {
    hide FirstFrom;
    FirstIs(heads, SearchStart(size), 512);
  }

  lemma UnlinkMemoryIs(mem: Memory, before: int, after: int)
    ensures UnlinkMemory(mem, before, after) ==
            var m := if before != 0 then Put(mem, before + 8, after) else mem;
            if after != 0 then Put(m, after + 16, before) else m
  {
  }

  class Allocator {
    const pageSize: nat
    /** The words of the free-space page; word 0 is its header. */
    const heads: array<int>
    /** The words of the DATA pages by address. */
    var mem: Memory
    ghost var pages: set<int>
    ghost var chunks: Chunks
    ghost var lists: Lists

    /** Every chunk is what its words say; the free ones are on the list of their size, except the loose ones. */
    ghost predicate Holds(loose: set<int>)
      reads this, heads
    {
      heads.Length == pageSize / 8 && Consistent(pageSize, pages, mem, heads[..], chunks, lists, loose)
    }

    ghost predicate Valid()
      reads this, heads
    {
      Holds({})
    }

    constructor (p: nat)
      requires PageSize(p)
      ensures Valid() && fresh(heads) && pageSize == p && pages == {} && chunks == map[]
      ensures forall i :: 0 <= i < heads.Length ==> heads[i] == 0
    {
      pageSize := p;
      heads := new int[p / 8](_ => 0);
      mem := map[];
      pages, chunks, lists := {}, map[], seq(p / 8, _ => []);
      new;
      EmptyConsistent(p, heads[..], lists);
    }

    /** The invariant, where its definition is hidden. */
    lemma IsHeld(loose: set<int>)
      requires heads.Length == pageSize / 8 && Consistent(pageSize, pages, mem, heads[..], chunks, lists, loose)
      ensures Holds(loose)
    {
    }

    lemma UnlinkFacts(c: int, loose: set<int>, i: nat, j: nat)
      requires Holds(loose) && i < |lists| && j < |lists[i]| && lists[i][j] == c
      ensures c in mem && c + 8 in mem && c + 16 in mem && heads.Length == pageSize / 8 && i < heads.Length
      ensures pageSize > 0 && SizeOf(mem[c]) >= 0 && HeadIndex(pageSize, SizeOf(mem[c])) == Ok(i)
      ensures mem[c + 16] == 0 <==> j == 0
      ensures var mem' := UnlinkMemory(mem, mem[c + 16], mem[c + 8]);
              var heads' := if j == 0 then heads[..][i := mem[c + 8]] else heads[..];
              && Consistent(pageSize, pages, mem', heads', chunks, lists[i := Without(lists[i], j)], loose + {c})
              && UsedKept(chunks, mem, mem')
    {
      hide Consistent, UsedKept, UnlinkMemory, Without, HeadIndex, Before, After;
      ListedWords(pageSize, pages, mem, heads[..], chunks, lists, loose, i, j);
      HeadIndexOfChunk(pageSize, 8 * i);
      UnlinkKeeps(pageSize, pages, mem, heads[..], chunks, lists, loose, i, j,
                  UnlinkMemory(mem, mem[c + 16], mem[c + 8]), if j == 0 then heads[..][i := mem[c + 8]] else heads[..]);
    }

    /** Takes the chunk at position j of list i off it, wherever in the list it is. */
    method UnlinkSpace(c: int, ghost loose: set<int>, ghost i: nat, ghost j: nat)
      requires Holds(loose) && i < |lists| && j < |lists[i]| && lists[i][j] == c
      modifies `mem, `lists, heads
      ensures Holds(loose + {c}) && lists == old(lists)[i := Without(old(lists)[i], j)]
      ensures UsedKept(chunks, old(mem), mem)
    {
      hide *;
      UnlinkFacts(c, loose, i, j);
      var previous, next := mem[c + 16], mem[c + 8];
      if previous != 0 {
        mem := Put(mem, previous + 8, next);
      } else {
        heads[HeadIndex(pageSize, SizeOf(mem[c])).value] := next;
      }
      if next != 0 {
        mem := Put(mem, next + 16, previous);
      }
      UnlinkMemoryIs(old(mem), previous, next);
      lists := lists[i := Without(lists[i], j)];
      assert heads[..] == if j == 0 then old(heads[..])[i := next] else old(heads[..]);
      IsHeld(loose + {c});
    }

    /** Writes the links of chunk c and makes it the head of the list of its size. */
    method LinkSpace(c: int)
      requires c in mem && 0 <= mem[c] < TWO_64 && c < TWO_64 && pageSize > 0
      requires HeadIndex(pageSize, SizeOf(mem[c])).Ok? && HeadIndex(pageSize, SizeOf(mem[c])).value < heads.Length
      requires heads[HeadIndex(pageSize, SizeOf(mem[c])).value] < TWO_64
      modifies `mem, heads
      ensures var i := HeadIndex(pageSize, SizeOf(old(mem)[c])).value;
              && mem == LinkMemory(old(mem), c, old(heads[i]))
              && heads[..] == old(heads[..])[i := c]
    {
      var i := HeadIndex(pageSize, SizeOf(mem[c])).value;
      var head := heads[i];
      mem := Put(mem, c, ClearAllocated(mem[c]));
      mem := Put(mem, c + 8, head);
      mem := Put(mem, c + 16, 0);
      if head != 0 {
        mem := Put(mem, head + 16, c);
      }
      heads[i] := c;
    }

    lemma Held(loose: set<int>)
      requires Holds(loose)
      ensures heads.Length == pageSize / 8 && Consistent(pageSize, pages, mem, heads[..], chunks, lists, loose)
    {
    }

    lemma PageFacts()
      requires Holds({})
      ensures PageSize(pageSize) && pageSize % 8 == 0 && 4096 <= pageSize <= 0x100_0000 && PAGE_HEADER == 8
      ensures META_SIZE == 4 && LINK_SIZE == 24
      ensures heads.Length == pageSize / 8
    {
      PageSizes(pageSize);
    }

    lemma FitFacts(size: nat)
      requires Holds({}) && 8 <= size <= pageSize - PAGE_HEADER && size % 8 == 0
      ensures 1 <= size / 8 < heads.Length && 8 * (size / 8) == size && JUMP / 8 <= heads.Length
      ensures size / 8 < SearchStart(size) <= heads.Length
      ensures forall d :: d >= SearchStart(size) ==> size < 8 * d
      ensures Fit(heads[..], size) ==
              if heads[size / 8] != 0 then size / 8 else FirstFrom(heads[..], SearchStart(size))
      ensures Overruns(pageSize, heads[..], size) <==>
              Fit(heads[..], size) == heads.Length && 0 < pageSize - PAGE_HEADER - size < LINK_SIZE
    {
      PageFacts();
      hide Holds, PageSize;
    }

    lemma NotHeld()
      requires exists i :: 1 <= i < 3 && i < heads.Length && heads[i] != 0
      ensures !Holds({})
    {
      var i :| 1 <= i < 3 && i < heads.Length && heads[i] != 0;
      SmallHeads(pageSize, pages, mem, heads[..], chunks, lists, {}, i);
    }

    /** A head in use is the first chunk of its list. */
    lemma TakeFacts(i: nat)
      requires Holds({}) && 1 <= i < heads.Length && heads[i] != 0
      ensures i < |lists| && |lists[i]| > 0 && lists[i][0] == heads[i] && 3 <= i && 8 * i < 0x100_0000
      ensures heads[i] in chunks && chunks[heads[i]].free && chunks[heads[i]].size == 8 * i < 8 * i + LINK_SIZE
    {
      HeadBounds(pageSize, pages, mem, heads[..], chunks, lists, {}, i);
      ListedWords(pageSize, pages, mem, heads[..], chunks, lists, {}, i, 0);
      hide Members, Threaded, Headed, Mapped;
    }

    /** The chunk at the head of list i, whole. */
    method TakeExact(i: nat) returns (r: Space)
      requires Holds({}) && 1 <= i < heads.Length && heads[i] != 0
      modifies `mem, `lists, `chunks, heads
      ensures Holds({}) && Served(old(chunks), chunks, old(heads[i]), 8 * i, LINK_SIZE, r)
        && r.size == 8 * i < 0x100_0000
      ensures UsedKept(old(chunks), old(mem), mem)
    {
      hide *;
      TakeFacts(i);
      var c := heads[i];
      UnlinkSpace(c, {}, i, 0);
      assert {} + {c} == {c};
      Held({c});
      WholeKeeps(pageSize, pages, mem, heads[..], chunks, lists, c, 8 * i);
      UsedThen(chunks, old(mem), mem, Put(mem, c, SetAllocated(mem[c])));
      mem := Put(mem, c, SetAllocated(WithSize(mem[c], 8 * i)));
      chunks := Carved(chunks, c, 8 * i, LINK_SIZE);
      IsHeld({});
      r := Space(c + META_SIZE, 8 * i);
      IsServed(old(chunks), chunks, c, 8 * i, LINK_SIZE, r);
    }

    /** The chunk at the head of list k, which is larger than needed: the rest goes back when it can hold a link. */
    method TakeLarger(k: nat, size: nat) returns (r: Space)
      requires Holds({}) && 1 <= k < heads.Length && heads[k] != 0 && 8 <= size < 8 * k && size % 8 == 0
      modifies `mem, `lists, `chunks, heads
      ensures Holds({}) && Served(old(chunks), chunks, old(heads[k]), size, LINK_SIZE, r) && size <= r.size < 0x100_0000
      ensures UsedKept(old(chunks), old(mem), mem)
    {
      hide *;
      TakeFacts(k);
      var c := heads[k];
      UnlinkSpace(c, {}, k, 0);
      assert {} + {c} == {c};
      Held({c});
      HeaderFacts(pageSize, pages, mem, heads[..], chunks, lists, {c}, c);
      var remaining := SizeOf(mem[c]) - size;
      if remaining >= LINK_SIZE {
        ghost var mem0, heads0 := mem, heads[..];
        ghost var t', rest, v', w, mem1, mem2, mark :=
          CutReady(pageSize, pages, mem, heads[..], chunks, lists, c, size);
        var t, v, first := c + size, MetaWord(remaining, 0, 0), WithSize(mem[c], size);
        mem := Put(mem, t, v);
        mem := Put(mem, c, first);
        LinkSpace(t);
        assert mem == mem2 && heads[..] == heads0[rest := t];
        CutKeeps(pageSize, pages, mem0, heads0, chunks, lists, c, size, w, v, mark);
        HeaderLast(mem0, c, size, w, v, heads0[rest], mark);
        lists := lists[rest := [t] + lists[rest]];
        UsedThen(chunks, old(mem), mem0, Put(mem, c, mark));
        CarvedFirst(chunks, c, size);
        r := Space(c + META_SIZE, size);
      } else {
        WholeKeeps(pageSize, pages, mem, heads[..], chunks, lists, c, size);
        UsedThen(chunks, old(mem), mem, Put(mem, c, SetAllocated(mem[c])));
        r := Space(c + META_SIZE, SizeOf(mem[c]));
      }
      mem := Put(mem, c, SetAllocated(mem[c]));
      chunks := Carved(chunks, c, size, LINK_SIZE);
      IsHeld({});
      IsServed(old(chunks), chunks, c, size, LINK_SIZE, r);
    }

    /**
     * A new page. Whatever is left of it is linked from four bytes on, where a link takes twenty-four:
     * a rest of 8 or 16 bytes makes the links run over the end of the page.
     */
    method TakeFresh(q: int, size: nat) returns (r: Space)
      requires Holds({}) && FreshPage(pageSize, pages, q) && 8 <= size <= pageSize - PAGE_HEADER && size % 8 == 0
      modifies this, heads
      ensures pages == old(pages) + {q}
      ensures Served(PageChunks(pageSize, old(chunks), q), chunks, q + PAGE_HEADER, size, META_SIZE, r)
      ensures r.size == size < 0x100_0000
      ensures var rest := pageSize - PAGE_HEADER - size;
              if 0 < rest < LINK_SIZE then
                && heads[rest / 8] != 0 && 1 <= rest / 8 < 3 && heads.Length >= 3
                && q + pageSize in mem && mem[q + pageSize] == 0
              else
                Holds({}) && UsedKept(old(chunks), old(mem), mem)
    {
      hide *;
      ghost var remaining', v', u' := FreshWords(pageSize, pages, q, size);
      Held({});
      TiledOf(pageSize, pages, mem, heads[..], chunks, lists, {});
      PageTiles(pageSize, pages, chunks, q);
      ghost var mem0, heads0 := mem + ZeroPage(pageSize, q), heads[..];
      var c, remaining := q + PAGE_HEADER, pageSize - PAGE_HEADER - size;
      mem := mem + ZeroPage(pageSize, q);
      if remaining >= META_SIZE {
        ghost var rest := remaining / 8;
        HeadBounds(pageSize, pages, old(mem), heads[..], chunks, lists, {}, rest);
        var t, v := c + size, MetaWord(remaining, 0, 0);
        CutMemoryIs(mem0, c, size, v, heads[rest], u');
        mem := Put(mem, t, v);
        LinkSpace(t);
        assert heads[..] == heads0[rest := t];
        if remaining >= LINK_SIZE {
          FreshCut(pageSize, pages, old(mem), heads0, chunks, lists, q, size, rest, v, u');
          lists := lists[rest := [t] + lists[rest]];
        } else {
          FreshOverrun(mem0, c, size, v, u', q + pageSize);
        }
      } else {
        FreshWhole(pageSize, pages, old(mem), heads[..], chunks, lists, q, size);
      }
      mem := Put(mem, c, MetaWord(size, 1, 0));
      r := Space(c + META_SIZE, size);
      FreshChunk(pageSize, chunks, q, size);
      FreshCarvedIs(pageSize, chunks, q, size);
      pages := pages + {q};
      chunks := Carved(PageChunks(pageSize, chunks, q), c, size, META_SIZE);
      IsServed(PageChunks(pageSize, old(chunks), q), chunks, c, size, META_SIZE, r);
      if !(0 < remaining < LINK_SIZE) {
        IsHeld({});
      }
    }

    /**
     * A chunk of at least minimumSize bytes, meta data aside: the head of the list of that very size,
     * else the head of the first larger list in use, else the start of a new page.
     */
    method GetFreeSpace(minimumSize: nat, newPage: int) returns (r: Result<Space>)
      requires minimumSize < TWO_32 && Holds({}) && FreshPage(pageSize, pages, newPage)
      modifies this, heads
      ensures r.Err? <==> Rounded(minimumSize) == 0 || Rounded(minimumSize) > pageSize - 8
      ensures r.Err? ==> Holds({}) && unchanged(this) && unchanged(heads)
      ensures r.Err? ==> r.error == if Rounded(minimumSize) == 0 then LogicError else NotYetImplemented
      ensures r.Ok? ==> Rounded(minimumSize) / 8 < heads.Length && JUMP / 8 <= heads.Length
      // where the chunk comes from, and what becomes of it
      ensures r.Ok? && Fit(old(heads[..]), Rounded(minimumSize)) < heads.Length ==>
        && pages == old(pages)
        && Served(old(chunks), chunks, old(heads[..])[Fit(old(heads[..]), Rounded(minimumSize))],
                  Rounded(minimumSize), 24, r.value)
      ensures r.Ok? && Fit(old(heads[..]), Rounded(minimumSize)) == heads.Length ==>
        && pages == old(pages) + {newPage}
        && Served(PageChunks(pageSize, old(chunks), newPage), chunks, newPage + 8,
                  Rounded(minimumSize), 4, r.value)
      // the invariant is kept, and the chunks in use with it, unless the rest of a new page is too small
      ensures r.Ok? ==> (Holds({}) <==> !Overruns(pageSize, old(heads[..]), Rounded(minimumSize)))
      ensures r.Ok? && Holds({}) ==> UsedKept(old(chunks), old(mem), mem)
      ensures r.Ok? && !Holds({}) ==> newPage + pageSize in mem && mem[newPage + pageSize] == 0
      ensures r.Ok? ==> (minimumSize + 4 <= r.value.size <==> minimumSize <= 0xFFFF_FFFC)
      // policy, safety and accounting; the guard of release_space only takes multiples of 8
      ensures r.Ok? ==>
        Granted(pageSize, old(pages), old(chunks), pages, chunks, Rounded(minimumSize), r.value)
      ensures r.Ok? ==> r.value.reference % 8 == 4
    {
      hide *;
      var size := Rounded(minimumSize);
      RoundedFacts(minimumSize);
      PageFacts();
      if size > pageSize - PAGE_HEADER {
        return Err(NotYetImplemented);
      }
      if size < 8 {
        return Err(LogicError);
      }
      FitFacts(size);
      Held({});
      var i := size / 8;
      if heads[i] != 0 {
        var exact := TakeExact(i);
        GrantedFromList(pageSize, pages, old(mem), old(heads[..]), old(chunks), old(lists), size, chunks, exact);
        return Ok(exact);
      }
      var d := SearchStart(size);
      while d < heads.Length
        invariant SearchStart(size) <= d <= heads.Length
        invariant forall j :: SearchStart(size) <= j < d ==> heads[j] == 0
      {
        if heads[d] != 0 {
          FirstIs(heads[..], SearchStart(size), d);
          var larger := TakeLarger(d, size);
          GrantedFromList(pageSize, pages, old(mem), old(heads[..]), old(chunks), old(lists), size, chunks, larger);
          return Ok(larger);
        }
        d := d + 1;
      }
      FirstIs(heads[..], SearchStart(size), d);
      var last := TakeFresh(newPage, size);
      if Overruns(pageSize, old(heads[..]), size) {
        NotHeld();
      }
      GrantedFromPage(pageSize, old(pages), old(mem), old(heads[..]), old(chunks), old(lists), newPage, size,
                      chunks, last);
      return Ok(last);
    }

    /**
     * The last step of a release: the chunk goes to the head of the list of its size. Its links only
     * fit in a chunk of at least twenty-four bytes.
     */
    method LinkBack(c: int)
      requires Holds({}) && c in chunks && !chunks[c].free
      modifies `mem, `lists, `chunks, heads
      ensures chunks == FreeChunk(old(chunks), c) && 1 <= chunks[c].size / 8 < heads.Length
      ensures heads[..] == old(heads[..])[chunks[c].size / 8 := c]
      ensures Holds({}) <==> old(chunks[c].size) >= 24
      ensures Holds({}) ==> UsedKept(chunks, old(mem), mem)
      ensures Bytes(chunks, false) == Bytes(old(chunks), false) - chunks[c].size
      ensures Bytes(chunks, true) == Bytes(old(chunks), true) + chunks[c].size
    {
      hide *;
      Held({});
      PageFacts();
      FreedBytes(chunks, c);
      HeaderFacts(pageSize, pages, mem, heads[..], chunks, lists, {}, c);
      ghost var i := chunks[c].size / 8;
      HeadBounds(pageSize, pages, mem, heads[..], chunks, lists, {}, i);
      HeadIndexOfChunk(pageSize, chunks[c].size);
      FreedFacts(chunks, c);
      LinkSpace(c);
      if chunks[c].size >= LINK_SIZE {
        ghost var w := ClearAllocated(old(mem)[c]);
        Cleared(old(mem)[c]);
        FreeKeeps(pageSize, pages, old(mem), old(heads[..]), chunks, lists, {}, c, w);
        assert {} + {c} == {c};
        LinkKeeps(pageSize, pages, old(mem), old(heads[..]), FreeChunk(chunks, c), lists, {c}, c);
        assert {c} - {c} == {};
        lists := lists[i := [c] + lists[i]];
        chunks := FreeChunk(chunks, c);
        IsHeld({});
      } else {
        chunks := FreeChunk(chunks, c);
        assert 1 <= i < 3 && heads[i] == c;
        NotHeld();
      }
    }
  }

  /**
   * The sizes that cannot be linked back are handed out: in a new allocator a request of 4 bytes gets a
   * chunk of 8, and returning that one breaks the lists.
   */
  method SmallChunkReturned(p: nat, newPage: int) returns (a: Allocator)
    requires FreshPage(p, {}, newPage)
    ensures fresh(a) && a.pageSize == p && !a.Holds({})
    ensures newPage + PAGE_HEADER in a.chunks && a.chunks[newPage + PAGE_HEADER].size == 8
  {
    hide *;
    FreshSizes(p, {}, newPage);
    PageSizes(p);
    a := new Allocator(p);
    a.PageFacts();
    NothingFree(p, a.heads[..]);
    var r := a.GetFreeSpace(4, newPage);
    SmallServed(p, newPage, a.chunks, r.value);
    FreedFacts(a.chunks, newPage + PAGE_HEADER);
    a.LinkBack(newPage + PAGE_HEADER);
  }

  lemma NothingFree(p: nat, heads: seq<int>)
    requires |heads| == p / 8 && 4096 <= p && forall i :: 0 <= i < |heads| ==> heads[i] == 0
    ensures 4 < TWO_32 && Rounded(4) == 8 && 8 <= p - PAGE_HEADER && 1 < |heads| && JUMP / 8 <= |heads|
    ensures Fit(heads, 8) == |heads| && !Overruns(p, heads, 8)
  {
    hide FirstFrom, Rounded;
    RoundedFacts(4);
    FirstIs(heads, SearchStart(8), |heads|);
  }

  lemma SmallServed(p: nat, q: int, after: Chunks, r: Space)
    requires 4096 <= p && Served(PageChunks(p, map[], q), after, q + PAGE_HEADER, 8, META_SIZE, r)
    ensures q + PAGE_HEADER in after && !after[q + PAGE_HEADER].free && after[q + PAGE_HEADER].size == 8
    ensures LINK_SIZE == 24
  {
  }
}
