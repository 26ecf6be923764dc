/** The pages of a table's file, which hold one block each. */
module FileBlocks {
  import opened Bits

  /** A block of the file: a whole page, on the boundary of a page, behind the header and before the end. */
  predicate InFile(c: int, end: int, pageSize: nat) {
    0 < c && c + pageSize <= end && OnPage(c, pageSize)
  }

  predicate OnPage(c: int, pageSize: nat) {
    pageSize > 0 && c % pageSize == 0
  }

  lemma PagesApart(c: int, d: int, pageSize: nat)
    requires OnPage(c, pageSize) && OnPage(d, pageSize) && c < d
    ensures c + pageSize <= d
  {
    var m, n := c / pageSize, d / pageSize;
    DivModIdentity(c, pageSize);
    DivModIdentity(d, pageSize);
    if m >= n {
      MulMono(n, m, pageSize);
    } else {
      MulMono(m + 1, n, pageSize);
      MulDist(m, 1, pageSize);
    }
  }

  lemma PageOn(c: int, pageSize: nat, i: nat)
    requires OnPage(c, pageSize)
    ensures OnPage(c + i * pageSize, pageSize)
  {
    ModShift(c, i, pageSize);
  }

  /** A block lies behind the first page of the file, which is the header's. */
  lemma BehindHeader(c: int, end: int, pageSize: nat)
    requires InFile(c, end, pageSize)
    ensures pageSize <= c && c + pageSize <= end
  {
    DivModUnique(0, 0, 0, pageSize);
    PagesApart(0, c, pageSize);
  }

  /** The file grows by one page. */
  lemma NextPage(end: int, pageSize: nat)
    requires 0 < end && OnPage(end, pageSize)
    ensures OnPage(end + pageSize, pageSize) && InFile(end, end + pageSize, pageSize)
  {
    PageOn(end, pageSize, 1);
  }
}
