/** Entries of an index block: how they are ordered and how they are packed into bytes. */
module EntryPacking {
  import opened Bits
  import opened Buffers
  import opened Sequences

  const PREFIX: nat := 9
  const COMPLETE: byte := 1

  /** One entry: its flags, the reference it leads to and the bytes of its key slot. */
  datatype Entry = Entry(flags: byte, oid: nat, key: seq<byte>)

  // ---- memcmp ----

  function Compare(a: seq<byte>, b: seq<byte>): (r: int)
    requires |a| == |b|
    ensures r == 0 <==> a == b
  {
    if |a| == 0 then 0
    else if a[0] != b[0] then a[0] - b[0]
    else
      assert a[1..] == b[1..] ==> a == b by {
        assert a == [a[0]] + a[1..] && b == [b[0]] + b[1..];
      }
      Compare(a[1..], b[1..])
  }

  /** The first byte that differs decides. */
  lemma {:induction false} CompareFirst(a: seq<byte>, b: seq<byte>, i: nat)
    requires |a| == |b| && i < |a| && a[..i] == b[..i] && a[i] != b[i]
    ensures Compare(a, b) < 0 <==> a[i] < b[i]
  {
    if i > 0 {
      assert a[0] == a[..i][0] && b[0] == b[..i][0];
      assert a[1..][..i - 1] == a[..i][1..] && b[1..][..i - 1] == b[..i][1..];
      CompareFirst(a[1..], b[1..], i - 1);
    }
  }

  /** memcmp orders byte strings of one length as the numbers they are from the first byte down. */
  lemma {:induction false} CompareIsOrder(a: seq<byte>, b: seq<byte>)
    requires |a| == |b|
    ensures Compare(a, b) < 0 <==> BigEndian(a) < BigEndian(b)
    ensures Compare(a, b) == 0 <==> BigEndian(a) == BigEndian(b)
  {
    if |a| > 0 {
      hide BigEndian;
      var p := Pow2(8 * (|a| - 1));
      assert a == [a[0]] + a[1..] && b == [b[0]] + b[1..];
      BigEndianFront(a[0], a[1..]);
      BigEndianFront(b[0], b[1..]);
      BigEndianBound(a[1..]);
      BigEndianBound(b[1..]);
      CompareIsOrder(a[1..], b[1..]);
      FirstDigit(a[0], b[0], p, BigEndian(a[1..]), BigEndian(b[1..]));
    }
  }

  lemma FirstDigit(x: nat, y: nat, p: nat, l: nat, m: nat)
    requires l < p && m < p
    ensures x < y ==> x * p + l < y * p + m
    ensures x > y ==> x * p + l > y * p + m
  {
    if x < y {
      MulMono(x + 1, y, p);
      MulDist(x, 1, p);
    } else if x > y {
      MulMono(y + 1, x, p);
      MulDist(y, 1, p);
    }
  }

  lemma {:induction false} CompareTurns(a: seq<byte>, b: seq<byte>)
    requires |a| == |b|
    ensures Compare(a, b) < 0 <==> Compare(b, a) > 0
    ensures Compare(a, b) == 0 <==> Compare(b, a) == 0
  {
    if |a| > 0 && a[0] == b[0] {
      CompareTurns(a[1..], b[1..]);
    }
  }

  lemma {:induction false} CompareTransitive(a: seq<byte>, b: seq<byte>, c: seq<byte>)
    requires |a| == |b| == |c| && Compare(a, b) <= 0 && Compare(b, c) <= 0
    ensures Compare(a, c) <= 0
    ensures Compare(a, b) < 0 || Compare(b, c) < 0 ==> Compare(a, c) < 0
  {
    if |a| > 0 && a[0] == b[0] == c[0] {
      CompareTransitive(a[1..], b[1..], c[1..]);
    }
  }

  /** The order of the first p bytes decides unless they are the same. */
  lemma {:induction false} ComparePrefix(a: seq<byte>, b: seq<byte>, p: nat)
    requires |a| == |b| && p <= |a|
    ensures Compare(a[..p], b[..p]) != 0 ==> Compare(a, b) == Compare(a[..p], b[..p])
    ensures Compare(a, b) <= 0 ==> Compare(a[..p], b[..p]) <= 0
  {
    if p > 0 && a[0] == b[0] {
      ComparePrefix(a[1..], b[1..], p - 1);
      assert a[..p][1..] == a[1..][..p - 1] && b[..p][1..] == b[1..][..p - 1];
    }
  }

  // ---- order ----

  /** Keys of `slot` bytes in strictly ascending order. */
  ghost predicate Ascending(entries: seq<Entry>, slot: nat) {
    && (forall k :: 0 <= k < |entries| ==> |entries[k].key| == slot)
    && (forall j, k :: 0 <= j < k < |entries| ==> Compare(entries[j].key, entries[k].key) < 0)
  }

  /** What a key leaves in its slot: its first bytes, zeroes behind a short one. */
  function Slotted(key: seq<byte>, slot: nat): (s: seq<byte>)
    ensures |s| == slot
    ensures forall i :: 0 <= i < slot ==> s[i] == if i < |key| then key[i] else 0
  {
    if |key| >= slot then key[..slot] else key + Fill(slot - |key|, 0)
  }

  function MinLength(key: seq<byte>, slot: nat): (p: nat)
    ensures p <= slot && p <= |key|
  {
    if slot <= |key| then slot else |key|
  }

  /** What the search compares: as many bytes as both the slot and the key have. */
  function Sign(entry: Entry, key: seq<byte>, slot: nat): int
    requires |entry.key| == slot
  {
    Compare(entry.key[..MinLength(key, slot)], key[..MinLength(key, slot)])
  }

  /** All entries before p sort before the key, all from p on behind it. */
  ghost predicate GapFor(entries: seq<Entry>, slot: nat, key: seq<byte>, p: nat)
    requires forall k :: 0 <= k < |entries| ==> |entries[k].key| == slot
  {
    && p <= |entries|
    && (forall k :: 0 <= k < p ==> Sign(entries[k], key, slot) < 0)
    && (forall k :: p <= k < |entries| ==> Sign(entries[k], key, slot) > 0)
  }

  /** The keys as numbers, from the first byte down, strictly increase. */
  ghost predicate KeysIncrease(entries: seq<Entry>) {
    forall j, k :: 0 <= j < k < |entries| ==> BigEndian(entries[j].key) < BigEndian(entries[k].key)
  }

  lemma AscendingIncreases(entries: seq<Entry>, slot: nat)
    ensures Ascending(entries, slot) <==> Slots(entries, slot) && KeysIncrease(entries)
  {
    hide BigEndian, Compare;
    if Slots(entries, slot) {
      forall j, k | 0 <= j < k < |entries|
        ensures Compare(entries[j].key, entries[k].key) < 0 <==> BigEndian(entries[j].key) < BigEndian(entries[k].key)
      {
        CompareIsOrder(entries[j].key, entries[k].key);
      }
    }
  }

  /** Exactly the entries before p have a smaller number than the key in the bytes both of them have. */
  ghost predicate PlaceOf(entries: seq<Entry>, slot: nat, key: seq<byte>, p: nat)
    requires Slots(entries, slot)
  {
    var m := MinLength(key, slot);
    forall k :: 0 <= k < |entries| ==>
      BigEndian(entries[k].key[..m]) != BigEndian(key[..m]) &&
      (k < p <==> BigEndian(entries[k].key[..m]) < BigEndian(key[..m]))
  }

  lemma GapIsPlace(entries: seq<Entry>, slot: nat, key: seq<byte>, p: nat)
    requires Slots(entries, slot) && p <= |entries|
    ensures GapFor(entries, slot, key, p) <==> PlaceOf(entries, slot, key, p)
  {
    hide BigEndian, Compare;
    var m := MinLength(key, slot);
    forall k | 0 <= k < |entries|
      ensures Sign(entries[k], key, slot) < 0 <==> BigEndian(entries[k].key[..m]) < BigEndian(key[..m])
      ensures Sign(entries[k], key, slot) == 0 <==> BigEndian(entries[k].key[..m]) == BigEndian(key[..m])
    {
      CompareIsOrder(entries[k].key[..m], key[..m]);
    }
  }

  /** An entry below the key has only entries below the key in front of it, and the other way round. */
  lemma SignMonotone(entries: seq<Entry>, slot: nat, key: seq<byte>, j: nat, k: nat)
    requires Ascending(entries, slot) && j <= k < |entries|
    ensures Sign(entries[k], key, slot) < 0 ==> Sign(entries[j], key, slot) < 0
    ensures Sign(entries[j], key, slot) > 0 ==> Sign(entries[k], key, slot) > 0
  {
    if j < k {
      var p := MinLength(key, slot);
      var a, b, c := entries[j].key, entries[k].key, key[..p];
      ComparePrefix(a, b, p);
      if Sign(entries[k], key, slot) < 0 {
        CompareTransitive(a[..p], b[..p], c);
      }
      if Sign(entries[j], key, slot) > 0 {
        CompareTurns(a[..p], c);
        CompareTransitive(c, a[..p], b[..p]);
        CompareTurns(c, b[..p]);
      }
    }
  }

  lemma GapBound(entries: seq<Entry>, slot: nat, key: seq<byte>, p: nat, q: nat)
    requires Ascending(entries, slot) && GapFor(entries, slot, key, p) && GapFor(entries, slot, key, q)
    ensures q <= p
  {
    if q > 0 {
      GapSide(entries, slot, key, p, q - 1);
    }
  }

  lemma GapSide(entries: seq<Entry>, slot: nat, key: seq<byte>, p: nat, k: nat)
    requires Ascending(entries, slot) && GapFor(entries, slot, key, p)
    requires k < |entries| && Sign(entries[k], key, slot) < 0
    ensures k < p
  {
  }

  /** There is at most one gap, and none when the key is there. */
  lemma GapUnique(entries: seq<Entry>, slot: nat, key: seq<byte>, p: nat, q: nat)
    requires Ascending(entries, slot) && GapFor(entries, slot, key, p) && GapFor(entries, slot, key, q)
    ensures p == q
    ensures forall k :: 0 <= k < |entries| ==> Sign(entries[k], key, slot) != 0
  {
    GapBound(entries, slot, key, p, q);
    GapBound(entries, slot, key, q, p);
  }

  function Inserted(entries: seq<Entry>, p: nat, e: Entry): seq<Entry>
    requires p <= |entries|
  {
    entries[..p] + [e] + entries[p..]
  }

  /** A key put into its gap keeps the order. */
  lemma InsertAscending(entries: seq<Entry>, slot: nat, key: seq<byte>, p: nat, e: Entry)
    requires Ascending(entries, slot) && GapFor(entries, slot, key, p) && e.key == Slotted(key, slot)
    ensures Ascending(Inserted(entries, p, e), slot)
  {
    forall k | 0 <= k < |entries|
      ensures k < p ==> Compare(entries[k].key, e.key) < 0
      ensures k >= p ==> Compare(e.key, entries[k].key) < 0
    {
      SlottedSide(entries[k], slot, key);
    }
    var entries' := Inserted(entries, p, e);
    assert forall k :: 0 <= k < |entries'| ==>
             entries'[k] == if k < p then entries[k] else if k == p then e else entries[k - 1];
  }

  /** An entry on one side of the key is on that side of the slot the key leaves. */
  lemma SlottedSide(entry: Entry, slot: nat, key: seq<byte>)
    requires |entry.key| == slot
    ensures Sign(entry, key, slot) < 0 ==> Compare(entry.key, Slotted(key, slot)) < 0
    ensures Sign(entry, key, slot) > 0 ==> Compare(Slotted(key, slot), entry.key) < 0
  {
    var m, k := MinLength(key, slot), Slotted(key, slot);
    assert k[..m] == key[..m];
    ComparePrefix(entry.key, k, m);
    CompareTurns(entry.key, k);
  }

  /** The key sorts between its neighbours at position p. */
  ghost predicate FitsAt(entries: seq<Entry>, p: nat, key: seq<byte>, slot: nat)
    requires p <= |entries| && |key| == slot && Slots(entries, slot)
  {
    (p > 0 ==> Compare(entries[p - 1].key, key) < 0) && (p < |entries| ==> Compare(key, entries[p].key) < 0)
  }

  /** A position given by the caller keeps the order exactly when it lies between the right neighbours. */
  lemma InsertOrder(entries: seq<Entry>, slot: nat, p: nat, e: Entry)
    requires Ascending(entries, slot) && p <= |entries| && |e.key| == slot
    ensures Ascending(Inserted(entries, p, e), slot) <==> FitsAt(entries, p, e.key, slot)
  {
    hide Inserted;
    var entries' := Inserted(entries, p, e);
    InsertedElements(entries, p, e);
    if FitsAt(entries, p, e.key, slot) {
      forall k | 0 <= k < |entries|
        ensures k < p ==> Compare(entries[k].key, e.key) < 0
        ensures k >= p ==> Compare(e.key, entries[k].key) < 0
      {
        if k < p - 1 {
          CompareTransitive(entries[k].key, entries[p - 1].key, e.key);
        } else if k > p {
          CompareTransitive(e.key, entries[p].key, entries[k].key);
        }
      }
    } else {
      assert p > 0 ==> entries'[p - 1] == entries[p - 1] by {
        assert p > 0 ==> entries'[if p - 1 < p then p - 1 else p] == entries[p - 1];
      }
      assert p < |entries| ==> entries'[p + 1] == entries[p] by {
        assert p < |entries| ==> entries'[if p < p then p else p + 1] == entries[p];
      }
    }
  }

  // ---- the map the entries stand for ----

  /** From the bytes of the key slots to the references. */
  ghost function Bindings(entries: seq<Entry>): map<seq<byte>, nat> {
    if |entries| == 0 then map[]
    else Bindings(entries[..|entries| - 1])[entries[|entries| - 1].key := entries[|entries| - 1].oid]
  }

  lemma {:induction false} BindingsAre(entries: seq<Entry>, slot: nat)
    requires Ascending(entries, slot)
    ensures forall k :: 0 <= k < |entries| ==>
              entries[k].key in Bindings(entries) && Bindings(entries)[entries[k].key] == entries[k].oid
    ensures forall key :: key in Bindings(entries) ==> exists k :: 0 <= k < |entries| && entries[k].key == key
  {
    if |entries| > 0 {
      var init, last := entries[..|entries| - 1], entries[|entries| - 1];
      BindingsAre(init, slot);
      forall k | 0 <= k < |init| ensures entries[k].key != last.key {
        assert Compare(entries[k].key, last.key) < 0;
      }
      assert forall k :: 0 <= k < |init| ==> init[k] == entries[k];
      assert entries[|entries| - 1].key == last.key;
    }
  }

  /** Inserting adds one binding and leaves all others alone. */
  lemma InsertBinds(entries: seq<Entry>, slot: nat, p: nat, e: Entry)
    requires p <= |entries| && Ascending(entries, slot) && Ascending(Inserted(entries, p, e), slot)
    ensures e.key !in Bindings(entries)
    ensures Bindings(Inserted(entries, p, e)) == Bindings(entries)[e.key := e.oid]
  {
    hide Bindings, Compare, Inserted, Ascending;
    InsertedElements(entries, p, e);
    NewKey(entries, slot, p, e);
    var before, after := Bindings(entries), Bindings(Inserted(entries, p, e));
    BindingsAre(entries, slot);
    BindingsAre(Inserted(entries, p, e), slot);
    forall key | key in before ensures key in after && after[key] == before[key] && key != e.key {
      var k :| 0 <= k < |entries| && entries[k].key == key;
      assert Inserted(entries, p, e)[if k < p then k else k + 1] == entries[k];
    }
    forall key | key in after ensures key == e.key || key in before {
      var k :| 0 <= k < |entries| + 1 && Inserted(entries, p, e)[k].key == key;
      if k != p {
        assert Inserted(entries, p, e)[k] == entries[if k < p then k else k - 1];
      }
    }
    OneMore(before, after, e.key, e.oid);
  }

  lemma OneMore(before: map<seq<byte>, nat>, after: map<seq<byte>, nat>, key: seq<byte>, oid: nat)
    requires forall k :: k in before ==> k in after && after[k] == before[k] && k != key
    requires forall k :: k in after ==> k == key || k in before
    requires key in after && after[key] == oid
    ensures key !in before && after == before[key := oid]
  {
  }

  lemma InsertedElements(entries: seq<Entry>, p: nat, e: Entry)
    requires p <= |entries|
    ensures |Inserted(entries, p, e)| == |entries| + 1 && Inserted(entries, p, e)[p] == e
    ensures forall k :: 0 <= k < |entries| ==> Inserted(entries, p, e)[if k < p then k else k + 1] == entries[k]
    ensures forall k :: 0 <= k <= |entries| && k != p ==>
              Inserted(entries, p, e)[k] == entries[if k < p then k else k - 1]
  {
    InsertedSize(entries, p, e);
    hide Inserted;
    forall k | 0 <= k < |entries| ensures Inserted(entries, p, e)[if k < p then k else k + 1] == entries[k] {
      InsertedAt(entries, p, e, k);
    }
    forall k | 0 <= k <= |entries| && k != p
      ensures Inserted(entries, p, e)[k] == entries[if k < p then k else k - 1]
    {
      InsertedAt(entries, p, e, if k < p then k else k - 1);
    }
  }

  lemma InsertedSize(entries: seq<Entry>, p: nat, e: Entry)
    requires p <= |entries|
    ensures |Inserted(entries, p, e)| == |entries| + 1 && Inserted(entries, p, e)[p] == e
  {
  }

  lemma InsertedAt(entries: seq<Entry>, p: nat, e: Entry, k: nat)
    requires p <= |entries| && k < |entries|
    ensures |Inserted(entries, p, e)| == |entries| + 1
    ensures Inserted(entries, p, e)[if k < p then k else k + 1] == entries[k]
  {
  }

  lemma NewKey(entries: seq<Entry>, slot: nat, p: nat, e: Entry)
    requires p <= |entries| && Ascending(entries, slot) && Ascending(Inserted(entries, p, e), slot)
    ensures forall k :: 0 <= k < |entries| ==> entries[k].key != e.key
  {
    hide Inserted;
    InsertedElements(entries, p, e);
    forall k | 0 <= k < |entries| ensures entries[k].key != e.key {
      var k' := if k < p then k else k + 1;
      assert Inserted(entries, p, e)[k'] == entries[k];
      assert k' < p ==> Compare(entries[k].key, e.key) < 0;
      assert k' > p ==> Compare(e.key, entries[k].key) < 0;
    }
  }

  /** With a key that fills its slot, a search that ends on an entry or in a gap is a lookup in the map. */
  lemma SearchIsLookup(entries: seq<Entry>, slot: nat, key: seq<byte>, p: nat)
    requires Ascending(entries, slot) && |key| >= slot
    ensures p < |entries| && Sign(entries[p], key, slot) == 0 ==>
              Slotted(key, slot) in Bindings(entries) && Bindings(entries)[Slotted(key, slot)] == entries[p].oid
    ensures GapFor(entries, slot, key, p) ==> Slotted(key, slot) !in Bindings(entries)
  {
    hide Bindings;
    BindingsAre(entries, slot);
    assert forall k :: 0 <= k < |entries| ==> entries[k].key[..slot] == entries[k].key;
    if GapFor(entries, slot, key, p) {
      forall k | 0 <= k < |entries| ensures entries[k].key != Slotted(key, slot) {
        assert Sign(entries[k], key, slot) != 0;
      }
    }
  }

  /** A search with the key ends on an entry. */
  ghost predicate Finds(entries: seq<Entry>, slot: nat, key: seq<byte>)
    requires Slots(entries, slot)
  {
    exists k :: 0 <= k < |entries| && Sign(entries[k], key, slot) == 0
  }

  /** What is found with a short key is the entries that start with it. */
  lemma ShortKeyFindsPrefix(entry: Entry, slot: nat, key: seq<byte>)
    requires |entry.key| == slot && |key| <= slot
    ensures Sign(entry, key, slot) == 0 <==> key <= entry.key
  {
    assert key[..|key|] == key;
  }

  /**
   * A search is a look-up in the map, whatever the entries, exactly when the key fills its slot: a
   * shorter key finds a longer one that starts with it.
   */
  lemma LookupExact(slot: nat, key: seq<byte>)
    ensures |key| >= slot <==> forall entries: seq<Entry> :: Ascending(entries, slot) ==>
              (Finds(entries, slot, key) <==> Slotted(key, slot) in Bindings(entries))
  {
    if |key| >= slot {
      forall entries: seq<Entry> | Ascending(entries, slot)
        ensures Finds(entries, slot, key) <==> Slotted(key, slot) in Bindings(entries)
      {
        FullKeyLookup(entries, slot, key);
      }
    } else {
      var e := Entry(COMPLETE, 1, key + Fill(slot - |key|, 1));
      var entries := [e];
      ShortKeyFindsPrefix(e, slot, key);
      assert entries[0] == e && e.key[|key|] == 1 && Slotted(key, slot)[|key|] == 0;
      BindingsAre(entries, slot);
      assert Ascending(entries, slot) && Finds(entries, slot, key) && Slotted(key, slot) !in Bindings(entries);
    }
  }

  lemma FullKeyLookup(entries: seq<Entry>, slot: nat, key: seq<byte>)
    requires Ascending(entries, slot) && |key| >= slot
    ensures Finds(entries, slot, key) <==> Slotted(key, slot) in Bindings(entries)
  {
    hide Bindings;
    BindingsAre(entries, slot);
    assert forall k :: 0 <= k < |entries| ==> entries[k].key[..slot] == entries[k].key;
  }

  // ---- bytes ----

  /** An entry as it lies in the block: flags, reference, key. */
  ghost function Encode(e: Entry): (b: seq<byte>)
    ensures |b| == PREFIX + |e.key|
  {
    [e.flags] + LowBytes(e.oid, 8) + e.key
  }

  ghost function Pack(entries: seq<Entry>): seq<byte> {
    if |entries| == 0 then [] else Pack(entries[..|entries| - 1]) + Encode(entries[|entries| - 1])
  }

  lemma PackLast(entries: seq<Entry>, e: Entry)
    ensures Pack(entries + [e]) == Pack(entries) + Encode(e)
  {
    hide Encode;
    assert (entries + [e])[..|entries|] == entries;
  }

  lemma PackOne(e: Entry)
    ensures Pack([e]) == Encode(e)
  {
    hide Encode;
    assert [e][..0] == [];
  }

  lemma {:induction false} PackAppend(a: seq<Entry>, b: seq<Entry>)
    ensures Pack(a + b) == Pack(a) + Pack(b)
  {
    hide Encode;
    if |b| == 0 {
      assert a + b == a;
      assert Pack(a) + [] == Pack(a);
    } else {
      var b', last := b[..|b| - 1], b[|b| - 1];
      PackAppend(a, b');
      assert b == b' + [last] && a + b == (a + b') + [last];
      hide Pack;
      PackLast(a + b', last);
      PackLast(b', last);
      Reassociate(Pack(a), Pack(b'), Encode(last));
    }
  }

  ghost predicate Slots(entries: seq<Entry>, slot: nat) {
    forall k :: 0 <= k < |entries| ==> |entries[k].key| == slot
  }

  lemma {:induction false} PackSize(entries: seq<Entry>, slot: nat)
    requires Slots(entries, slot)
    ensures |Pack(entries)| == |entries| * (PREFIX + slot)
  {
    hide Encode;
    if |entries| > 0 {
      PackSize(entries[..|entries| - 1], slot);
      MulDist(|entries| - 1, 1, PREFIX + slot);
    }
  }

  /** Entry k lies at k times the size of an entry. */
  lemma PackAt(entries: seq<Entry>, slot: nat, k: nat)
    requires Slots(entries, slot) && k < |entries|
    ensures (k + 1) * (PREFIX + slot) == k * (PREFIX + slot) + PREFIX + slot <= |Pack(entries)|
    ensures Pack(entries)[k * (PREFIX + slot)..k * (PREFIX + slot) + PREFIX + slot] == Encode(entries[k])
  {
    hide Encode, Pack;
    assert entries == entries[..k] + ([entries[k]] + entries[k + 1..]);
    PackAppend(entries[..k], [entries[k]] + entries[k + 1..]);
    PackAppend([entries[k]], entries[k + 1..]);
    PackOne(entries[k]);
    PackSize(entries[..k], slot);
    MulDist(k, 1, PREFIX + slot);
    SliceOf(Pack(entries[..k]), Encode(entries[k]), Pack(entries[k + 1..]), 0, PREFIX + slot);
  }

  lemma EncodedParts(e: Entry)
    requires e.oid < TWO_64
    ensures LittleEndian(Encode(e)[1..PREFIX]) == e.oid && Encode(e)[PREFIX..] == e.key && Encode(e)[0] == e.flags
  {
    hide Pow2, LittleEndian, LowBytes;
    assert Encode(e)[1..PREFIX] == LowBytes(e.oid, 8);
    BufferOfLowBytes(e.oid, 8);
    Pow2Sizes();
  }

  // ---- for the search ----

  lemma SliceWithin(data: seq<byte>, end: nat, at: nat, size: nat, e: seq<byte>)
    requires PREFIX <= size && at + size <= end <= |data| && data[..end][at..at + size] == e
    ensures data[at + PREFIX..at + size] == e[PREFIX..] && data[at + 1..at + PREFIX] == e[1..PREFIX]
    ensures data[at] == e[0]
  {
    SliceSlice(data, 0, end, at, at + size);
    assert data[0..end] == data[..end];
    SliceSlice(data, at, at + size, PREFIX, size);
    SliceSlice(data, at, at + size, 1, PREFIX);
    assert e[PREFIX..size] == e[PREFIX..];
  }

  lemma SignAt(entry: Entry, key: seq<byte>, slot: nat, bytes: seq<byte>)
    requires |entry.key| == slot && bytes == entry.key[..MinLength(key, slot)]
    ensures Sign(entry, key, slot) == Compare(bytes, key[..MinLength(key, slot)])
  {
  }

  lemma SignsBelow(entries: seq<Entry>, slot: nat, key: seq<byte>, p: nat)
    requires Ascending(entries, slot) && p < |entries| && Sign(entries[p], key, slot) < 0
    ensures forall k :: 0 <= k <= p ==> Sign(entries[k], key, slot) < 0
  {
    forall k | 0 <= k <= p ensures Sign(entries[k], key, slot) < 0 {
      SignMonotone(entries, slot, key, k, p);
    }
  }

  lemma SignsAbove(entries: seq<Entry>, slot: nat, key: seq<byte>, p: nat)
    requires Ascending(entries, slot) && p < |entries| && Sign(entries[p], key, slot) > 0
    ensures forall k :: p <= k < |entries| ==> Sign(entries[k], key, slot) > 0
  {
    forall k | p <= k < |entries| ensures Sign(entries[k], key, slot) > 0 {
      SignMonotone(entries, slot, key, p, k);
    }
  }

  lemma EncodeWritten(flags: byte, oid: nat, key: seq<byte>, slot: nat, e: Entry)
    requires e == Entry(flags, oid, Slotted(key, slot))
    ensures |key| < slot ==>
              Encode(e) == [flags] + LowBytes(oid, 8) + key[..MinLength(key, slot)] + Fill(slot - |key|, 0)
    ensures |key| >= slot ==> Encode(e) == [flags] + LowBytes(oid, 8) + key[..MinLength(key, slot)]
  {
    if |key| < slot {
      assert key[..MinLength(key, slot)] == key;
      Reassociate([flags] + LowBytes(oid, 8), key, Fill(slot - |key|, 0));
    }
  }

  ghost predicate Sound(entries: seq<Entry>) {
    forall k :: 0 <= k < |entries| ==> entries[k].oid < TWO_64
  }

  lemma InsertedSound(entries: seq<Entry>, slot: nat, p: nat, e: Entry)
    requires p <= |entries| && Slots(entries, slot) && Sound(entries) && |e.key| == slot && e.oid < TWO_64
    ensures Slots(Inserted(entries, p, e), slot) && Sound(Inserted(entries, p, e))
    ensures |Inserted(entries, p, e)| == |entries| + 1
  {
  }

  lemma NoMove(s: seq<byte>, a: nat, size: nat)
    requires a + size <= |s|
    ensures s == s[..a + size] + s[a..a] + s[a + size..]
  {
  }

  lemma GapHasNone(entries: seq<Entry>, slot: nat, key: seq<byte>, p: nat)
    requires Ascending(entries, slot) && GapFor(entries, slot, key, p)
    ensures forall k :: 0 <= k < |entries| ==> Sign(entries[k], key, slot) != 0
  {
    hide Sign;
  }

  /** A block is full when one more entry would not fit. */
  lemma FullOrNot(count: nat, size: nat, length: nat)
    requires size > 0
    ensures count >= length / size <==> (count + 1) * size > length
  {
    var q := length / size;
    DivModIdentity(length, size);
    MulDist(q, 1, size);
    if count >= q {
      MulMono(q + 1, count + 1, size);
    } else {
      MulMono(count + 1, q, size);
    }
  }

  lemma PackInserted(entries: seq<Entry>, slot: nat, p: nat, e: Entry, data: seq<byte>)
    requires Slots(entries, slot) && |e.key| == slot && p <= |entries|
    requires |entries| * (PREFIX + slot) <= |data| && data[..|entries| * (PREFIX + slot)] == Pack(entries)
    ensures p * (PREFIX + slot) <= |entries| * (PREFIX + slot)
    ensures Pack(Inserted(entries, p, e)) ==
            data[..p * (PREFIX + slot)] + Encode(e) + data[p * (PREFIX + slot)..|entries| * (PREFIX + slot)]
  {
    hide Encode, Pack;
    var a, end := p * (PREFIX + slot), |entries| * (PREFIX + slot);
    MulMono(p, |entries|, PREFIX + slot);
    PackSize(entries[..p], slot);
    PackSize(entries, slot);
    assert entries == entries[..p] + entries[p..];
    PackAppend(entries[..p], entries[p..]);
    PackAppend(entries[..p] + [e], entries[p..]);
    PackLast(entries[..p], e);
    assert data[..a] == data[..end][..a] == Pack(entries[..p]);
    SliceSlice(data, 0, end, a, end);
    assert data[0..end] == data[..end];
    assert data[a..end] == Pack(entries)[a..] == Pack(entries[p..]);
  }
}
