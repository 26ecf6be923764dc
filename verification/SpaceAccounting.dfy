/**
 * Conservation: the bytes of the chunks in use and of the free chunks always add up to the whole
 * of the DATA pages, headers aside, because the chunks tile those pages.
 */
module SpaceAccounting {
  import opened FreeLists

  /** The bytes of the free chunks, or of the chunks in use. */
  ghost function Bytes(chunks: Chunks, free: bool): int
    decreases |chunks|
  {
    if exists c :: c in chunks then
      var c :| c in chunks;
      Share(chunks[c], free) + Bytes(chunks - {c}, free)
    else
      0
  }

  function Share(chunk: Chunk, free: bool): int {
    if chunk.free == free then chunk.size else 0
  }

  /** The sum does not depend on the order in which chunks are counted. */
  lemma {:induction false} BytesWithout(chunks: Chunks, c: int, free: bool)
    requires c in chunks
    ensures Bytes(chunks, free) == Share(chunks[c], free) + Bytes(chunks - {c}, free)
    decreases |chunks|
  {
    var d :| d in chunks && Bytes(chunks, free) == Share(chunks[d], free) + Bytes(chunks - {d}, free);
    if c != d {
      BytesWithout(chunks - {d}, c, free);
      BytesWithout(chunks - {c}, d, free);
      assert chunks - {c} - {d} == chunks - {d} - {c};
    }
  }

  /** Changing or adding one chunk changes the sum by its share. */
  lemma BytesUpdate(chunks: Chunks, c: int, chunk: Chunk, free: bool)
    ensures Bytes(chunks[c := chunk], free) ==
            Bytes(chunks, free) + Share(chunk, free) - if c in chunks then Share(chunks[c], free) else 0
  {
    BytesWithout(chunks[c := chunk], c, free);
    if c in chunks {
      BytesWithout(chunks, c, free);
      assert chunks[c := chunk] - {c} == chunks - {c};
    } else {
      assert chunks[c := chunk] - {c} == chunks;
    }
  }

  /** All bytes of chunks, free or not. */
  ghost function AllBytes(chunks: Chunks): int {
    Bytes(chunks, true) + Bytes(chunks, false)
  }

  /** The chunks of the pages in `whole` and those of page q from address a on. */
  ghost function From(chunks: Chunks, whole: set<int>, q: int, a: int): Chunks {
    map c | c in chunks && (chunks[c].page in whole || (chunks[c].page == q && a <= c)) :: chunks[c]
  }

  /** From the start of a chunk to the end of its page the chunks hold exactly the bytes in between. */
  lemma {:induction false} PageWalk(p: nat, pages: set<int>, chunks: Chunks, whole: set<int>, q: int, a: int)
    requires Tiled(p, pages, chunks) && q !in whole && q in pages
    requires a == q + p || (a in chunks && chunks[a].page == q)
    ensures AllBytes(From(chunks, whole, q, a)) == AllBytes(From(chunks, whole, q, q + p)) + q + p - a
    decreases q + p - a
  {
    hide Bytes, From, AllBytes, PagesOk;
    if a != q + p {
      var e := a + chunks[a].size;
      NextInPage(p, pages, chunks, a);
      StepBytes(chunks, whole, q, a);
      hide *;
      PageWalk(p, pages, chunks, whole, q, e);
    }
  }

  lemma NextInPage(p: nat, pages: set<int>, chunks: Chunks, a: int)
    requires Tiled(p, pages, chunks) && a in chunks
    ensures var e, q := a + chunks[a].size, chunks[a].page;
            a < e <= q + p && (e == q + p || (e in chunks && chunks[e].page == q))
  {
    assert Placed(p, pages, a, chunks[a]);
    assert Followed(p, chunks, a);
  }

  lemma StepInPage(chunks: Chunks, whole: set<int>, q: int, a: int)
    requires Apart(chunks) && q !in whole && a in chunks && chunks[a].page == q && chunks[a].size > 0
    ensures a in From(chunks, whole, q, a)
    ensures From(chunks, whole, q, a) - {a} == From(chunks, whole, q, a + chunks[a].size)
  {
    var e := a + chunks[a].size;
    assert forall c :: c in chunks && a < c ==> e <= c;
    hide Apart;
  }

  lemma StepBytes(chunks: Chunks, whole: set<int>, q: int, a: int)
    requires Apart(chunks) && q !in whole && a in chunks && chunks[a].page == q && chunks[a].size > 0
    ensures AllBytes(From(chunks, whole, q, a)) ==
            AllBytes(From(chunks, whole, q, a + chunks[a].size)) + chunks[a].size
  {
    StepInPage(chunks, whole, q, a);
    var part := From(chunks, whole, q, a);
    assert part[a] == chunks[a];
    BytesWithout(part, a, true);
    BytesWithout(part, a, false);
  }

  lemma {:induction false} PagesWalk(p: nat, pages: set<int>, chunks: Chunks, whole: set<int>, q: int)
    requires Tiled(p, pages, chunks) && whole <= pages && q !in pages
    ensures AllBytes(From(chunks, whole, q, 0)) == |whole| * (p - PAGE_HEADER)
    decreases |whole|
  {
    hide Bytes, From, AllBytes, PagesOk, PageSize;
    if !(exists r :: r in whole) {
      assert whole == {};
      NoPages(p, pages, chunks, q);
    } else {
      var r :| r in whole;
      var rest := whole - {r};
      assert Starts(chunks, r) && rest + {r} == whole;
      hide *;
      PagesWalk(p, pages, chunks, rest, q);
      PageWalk(p, pages, chunks, rest, r, r + PAGE_HEADER);
      WholePage(p, pages, chunks, rest, r, q);
      assert (|rest| + 1) * (p - PAGE_HEADER) == |rest| * (p - PAGE_HEADER) + (p - PAGE_HEADER);
    }
  }

  lemma NoPages(p: nat, pages: set<int>, chunks: Chunks, q: int)
    requires InPages(p, pages, chunks) && q !in pages
    ensures AllBytes(From(chunks, {}, q, 0)) == 0
  {
    forall c | c in chunks ensures chunks[c].page in pages {
      assert Placed(p, pages, c, chunks[c]);
    }
    assert From(chunks, {}, q, 0) == map[];
  }

  lemma WholePage(p: nat, pages: set<int>, chunks: Chunks, rest: set<int>, r: int, q: int)
    requires InPages(p, pages, chunks) && q !in pages && r in pages && r !in rest
    ensures From(chunks, rest, r, r + PAGE_HEADER) == From(chunks, rest + {r}, q, 0)
    ensures From(chunks, rest, r, r + p) == From(chunks, rest, q, 0)
  {
    forall c | c in chunks ensures Placed(p, pages, c, chunks[c]) {
    }
  }

  /** Bytes in use plus free bytes are pages times the space of one page. */
  lemma Conserved(p: nat, pages: set<int>, chunks: Chunks)
    requires Tiled(p, pages, chunks)
    ensures Bytes(chunks, false) + Bytes(chunks, true) == |pages| * (p - PAGE_HEADER)
  {
    // no page lies at address 0
    PagesWalk(p, pages, chunks, pages, 0);
    forall c | c in chunks ensures chunks[c].page in pages {
      assert Placed(p, pages, c, chunks[c]);
    }
    assert From(chunks, pages, 0, 0) == chunks;
  }
}
