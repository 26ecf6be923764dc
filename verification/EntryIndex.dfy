/** `block_entry_index`: a block of entries of one size, sorted by key and packed without gaps. */
module EntryIndexes {
  import opened Bits
  import opened Buffers
  import opened Results
  import opened Sequences
  import opened EntryPacking

  lemma NoBindings()
    ensures Bindings([]) == map[]
  {
  }

  class EntryIndex {
    /** The bytes of the block behind its static fields. */
    const data: array<byte>
    var count: nat
    /** The size of one entry, 0 while it is not set. */
    var size: nat
    /** Where the last search ended. */
    var position: nat
    ghost var entries: seq<Entry>

    ghost function Slot(): nat
      reads this
    {
      if size >= PREFIX then size - PREFIX else 0
    }

    /** Where entry k starts. */
    function At(k: nat): nat
      reads `size
    {
      k * size
    }

    /** The bytes are those of the entries. */
    ghost predicate Holds()
      reads this, data
    {
      && |entries| == count && (size > PREFIX || (size == 0 && count == 0))
      && Slots(entries, Slot()) && Sound(entries)
      && At(count) <= data.Length && data[..At(count)] == Pack(entries)
    }

    ghost predicate Valid()
      reads this, data
    {
      Holds() && Ascending(entries, Slot())
    }

    constructor (length: nat)
      ensures Valid() && fresh(data) && data.Length == length && entries == [] && size == 0
      ensures position == 0
    {
      data := new byte[length];
      count, size, position, entries := 0, 0, 0, [];
    }

    /**
     * The size of the entries, from the size of the keys, which is added up in 32 bits. It is taken
     * whether there are entries or not; another size than theirs leaves nothing readable.
     */
    method SetKeySize(keySize: nat) returns (r: Result<()>)
      requires Valid() && keySize < TWO_32
      modifies `size
      ensures r.Err? <==> keySize == 0 || PREFIX + keySize >= TWO_32
      ensures size == if r.Err? then old(size) else PREFIX + keySize
      ensures Valid() <==> count == 0 || size == old(size)
    {
      hide Pack;
      var bytes := (PREFIX + keySize) % TWO_32;
      if bytes < PREFIX + 1 {
        return Err(LogicError);
      }
      ghost var was := size;
      size := bytes;
      if count == 0 {
        NoBytes();
      } else if size != was {
        assert |entries[0].key| == was - PREFIX;
      }
      return Ok(());
    }

    lemma NoBytes()
      ensures At(0) == 0 && Pack([]) == [] && data[..0] == []
    {
    }

    /** Entry k, byte by byte. */
    lemma EntryBytes(k: nat)
      requires Holds() && k < count
      ensures At(k) + size <= data.Length && size == PREFIX + Slot() == PREFIX + |entries[k].key|
      ensures data[At(k) + PREFIX..At(k) + size] == entries[k].key
      ensures LittleEndian(data[At(k) + 1..At(k) + PREFIX]) == entries[k].oid
    {
      hide Pack, Encode;
      PackAt(entries, Slot(), k);
      PackSize(entries, Slot());
      EncodedParts(entries[k]);
      SliceWithin(data[..], At(count), At(k), size, Encode(entries[k]));
    }

    /** What comparing the bytes of entry k with the key says. */
    lemma CompareBytes(k: nat, key: seq<byte>)
      requires Holds() && k < count
      ensures var length := MinLength(key, size - PREFIX);
              && At(k) + PREFIX + length <= data.Length && |entries[k].key| == Slot()
              && Sign(entries[k], key, Slot()) == Compare(data[At(k) + PREFIX..At(k) + PREFIX + length], key[..length])
    {
      hide Pack, Encode, Compare, Sign, At, Slots, Sound;
      EntryBytes(k);
      var length := MinLength(key, size - PREFIX);
      SliceSlice(data[..], At(k) + PREFIX, At(k) + size, 0, length);
      SignAt(entries[k], key, Slot(), data[At(k) + PREFIX..At(k) + PREFIX + length]);
    }

    lemma Parts()
      requires Holds()
      ensures |entries| == count && Slots(entries, Slot()) && Sound(entries)
      ensures (size > PREFIX && Slot() == size - PREFIX) || (size == 0 && count == 0)
      ensures At(count) <= data.Length && data[..At(count)] == Pack(entries)
    {
      hide Pack, At;
    }

    lemma Shape()
      requires Valid()
      ensures |entries| == count && Slots(entries, Slot()) && Ascending(entries, Slot())
      ensures (size > PREFIX && Slot() == size - PREFIX) || (size == 0 && count == 0)
    {
      hide Pack;
    }

    /** The binary search both look-ups share: an entry that compares equal, or the gap the key belongs in. */
    method Search(key: seq<byte>) returns (found: bool, p: nat)
      requires Valid() && (count > 0 || size > 0)
      ensures found ==> p < count && Sign(entries[p], key, Slot()) == 0
      ensures !found ==> GapFor(entries, Slot(), key, p) && PlaceOf(entries, Slot(), key, p)
    {
      hide Holds, Compare, Sign, Ascending, Slot, At, PlaceOf;
      Shape();
      found, p := false, 0;
      var length := MinLength(key, size - PREFIX);
      var i, j := 0, count;
      while i < j
        invariant 0 <= i <= j <= count && (p == i || p == j || (i == 0 && j == count && p == 0))
        invariant forall k :: 0 <= k < i ==> Sign(entries[k], key, Slot()) < 0
        invariant forall k :: j <= k < count ==> Sign(entries[k], key, Slot()) > 0
      {
        p := (j - i) / 2 + i;
        CompareBytes(p, key);
        var r := Compare(data[At(p) + PREFIX..At(p) + PREFIX + length], key[..length]);
        if r < 0 {
          SignsBelow(entries, Slot(), key, p);
          p := p + 1;
          i := p;
        } else if r > 0 {
          SignsAbove(entries, Slot(), key, p);
          j := p;
        } else {
          found := true;
          return;
        }
      }
      GapIsPlace(entries, Slot(), key, p);
    }

    /** The reference of an entry with the key, or 0; either way `position` tells where the search ended. */
    method FindEntry(key: seq<byte>) returns (oid: nat)
      requires Valid()
      modifies `position
      ensures Valid() && (count == 0 ==> oid == 0 && position == 0)
      ensures count > 0 ==>
        if exists k :: 0 <= k < count && Sign(entries[k], key, Slot()) == 0 then
          position < count && Sign(entries[position], key, Slot()) == 0 && oid == entries[position].oid
        else
          oid == 0 && GapFor(entries, Slot(), key, position) && PlaceOf(entries, Slot(), key, position)
      ensures |key| >= Slot() ==>
        oid == if Slotted(key, Slot()) in Bindings(entries) then Bindings(entries)[Slotted(key, Slot())] else 0
    {
      hide Pack, Encode, Compare, Sign, Bindings, Slotted, PlaceOf;
      if count == 0 {
        position := 0;
        NoBindings();
        return 0;
      }
      var found, p := Search(key);
      position := p;
      if |key| >= Slot() {
        SearchIsLookup(entries, Slot(), key, p);
      }
      if found {
        EntryBytes(p);
        oid := LittleEndian(data[At(p) + 1..At(p) + PREFIX]);
      } else {
        oid := 0;
      }
    }

    /** Writes flags, reference and key slot at offset `at`. */
    method WriteEntry(at: nat, flags: byte, oid: nat, key: seq<byte>, ghost e: Entry)
      requires size > PREFIX && at + size <= data.Length && oid < TWO_64
      requires e == Entry(flags, oid, Slotted(key, size - PREFIX))
      modifies data
      ensures |Encode(e)| == size && data[..] == Overlaid(old(data[..]), at, Encode(e))
    {
      hide LowBytes, Encode, Slotted, Overlaid;
      var slot := size - PREFIX;
      var length := MinLength(key, slot);
      CopyInto(data, at, [flags]);
      CopyInto(data, at + 1, LowBytes(oid, 8));
      CopyInto(data, at + PREFIX, key[..length]);
      OverlaidTwice(old(data[..]), at, [flags], LowBytes(oid, 8));
      OverlaidTwice(old(data[..]), at, [flags] + LowBytes(oid, 8), key[..length]);
      if |key| < slot {
        CopyInto(data, at + PREFIX + |key|, Fill(slot - |key|, 0));
        OverlaidTwice(old(data[..]), at, [flags] + LowBytes(oid, 8) + key[..length], Fill(slot - |key|, 0));
      }
      EncodeWritten(flags, oid, key, slot, e);
    }

    lemma SpanFacts(p: nat)
      requires p <= count
      ensures At(p) <= At(count) && At(p + 1) == At(p) + size && At(count + 1) == At(count) + size
    {
      MulMono(p, count, size);
      MulDist(p, 1, size);
      MulDist(count, 1, size);
    }

    /** Moves the bytes from `from` to `end` up by one entry. */
    method OpenGap(from: nat, end: nat)
      requires from <= end && end + size <= data.Length
      modifies data
      ensures data[..] == old(data[..])[..from + size] + old(data[..])[from..end] + old(data[..])[end + size..]
    {
      if end > from {
        MoveWithin(data, from + size, from, end - from);
      } else {
        NoMove(data[..], from, size);
      }
    }

    /** Moves the entries from p on up by one. */
    method MakeGap(p: nat)
      requires p <= count && At(count) + size <= data.Length
      modifies data
      ensures At(p) <= At(count)
      ensures data[..] == old(data[..])[..At(p) + size] + old(data[..])[At(p)..At(count)]
                          + old(data[..])[At(count) + size..]
    {
      hide At;
      SpanFacts(p);
      OpenGap(At(p), At(count));
    }

    /** Moves the entries from p on up by one and writes the new one in between. */
    method InsertAt(p: nat, flags: byte, oid: nat, key: seq<byte>)
      requires Holds() && size > PREFIX && p <= count && At(count) + size <= data.Length && oid < TWO_64
      modifies this, data
      ensures Holds() && size == old(size) && count == old(count) + 1 && position == old(position)
      ensures entries == Inserted(old(entries), p, Entry(flags, oid, Slotted(key, size - PREFIX)))
    {
      hide Pack, Encode, Slotted, Overlaid, Inserted, At, Slots, Sound, Holds;
      Parts();
      SpanFacts(p);
      ghost var e, before := Entry(flags, oid, Slotted(key, size - PREFIX)), data[..];
      MakeGap(p);
      ghost var moved := data[..];
      WriteEntry(At(p), flags, oid, key, e);
      BytesAfter(before, moved, p, e);
      InsertedSound(entries, size - PREFIX, p, e);
      entries := Inserted(entries, p, e);
      count := count + 1;
      HoldsWhen();
    }

    /** The bytes once room is made and the entry is in it are those of one entry more. */
    lemma BytesAfter(before: seq<byte>, moved: seq<byte>, p: nat, e: Entry)
      requires |entries| == count && size > PREFIX && Slots(entries, size - PREFIX) && |e.key| == size - PREFIX
        && p <= count
      requires At(p) <= At(count) && At(count) + size <= |before| == |moved| && before[..At(count)] == Pack(entries)
      requires moved == before[..At(p) + size] + before[At(p)..At(count)] + before[At(count) + size..]
      ensures Overlaid(moved, At(p), Encode(e))[..At(count + 1)] == Pack(Inserted(entries, p, e))
    {
      hide Pack, Encode, Overlaid, Inserted, At, Slots;
      SpanFacts(p);
      PackBytes(before, p, e);
      MakeRoom(before, moved, At(p), At(count), Encode(e));
    }

    lemma HoldsWhen()
      requires |entries| == count && size > PREFIX && Slots(entries, size - PREFIX) && Sound(entries)
      requires At(count) <= data.Length && data[..At(count)] == Pack(entries)
      ensures Holds()
    {
      hide At, Pack;
    }

    lemma PackBytes(before: seq<byte>, p: nat, e: Entry)
      requires |entries| == count && size > PREFIX && Slots(entries, size - PREFIX) && |e.key| == size - PREFIX
        && p <= count
      requires At(count) <= |before| && before[..At(count)] == Pack(entries)
      ensures At(p) <= At(count)
        && Pack(Inserted(entries, p, e)) == before[..At(p)] + Encode(e) + before[At(p)..At(count)]
    {
      PackInserted(entries, size - PREFIX, p, e, before);
    }

    /** The position given, or else the gap a search finds. */
    method Place(key: seq<byte>, closePosition: int) returns (found: bool, p: nat)
      requires Valid() && size > PREFIX && closePosition <= count
      ensures p <= count && (closePosition >= 0 ==> !found && p == closePosition)
      ensures closePosition < 0 ==> (found <==> exists k :: 0 <= k < count && Sign(entries[k], key, Slot()) == 0)
      ensures closePosition < 0 && !found ==> GapFor(entries, Slot(), key, p)
    {
      hide Sign, Compare;
      found, p := false, 0;
      if closePosition < 0 {
        found, p := Search(key);
        if !found {
          GapHasNone(entries, Slot(), key, p);
        }
      } else {
        p := closePosition;
      }
    }

    /** The order after an insertion. */
    lemma OrderAfter(before: seq<Entry>, key: seq<byte>, closePosition: int, p: nat, e: Entry)
      requires Holds() && size > PREFIX && Ascending(before, Slot()) && p <= |before|
      requires e.key == Slotted(key, Slot()) && entries == Inserted(before, p, e)
      requires if closePosition < 0 then GapFor(before, Slot(), key, p) else p == closePosition
      ensures closePosition < 0 ==> Valid()
      ensures closePosition >= 0 ==> (Valid() <==> FitsAt(before, closePosition, Slotted(key, Slot()), Slot()))
    {
      hide Holds, Ascending, GapFor, FitsAt, Slotted, Inserted;
      if closePosition < 0 {
        InsertAscending(before, Slot(), key, p, e);
      } else {
        InsertOrder(before, Slot(), p, e);
      }
    }

    /**
     * Adds an entry for the key, at a position found before or where a search says. Keys that compare
     * equal and full blocks are not supported.
     */
    method AddEntry(key: seq<byte>, oid: nat, closePosition: int) returns (r: Result<()>, ghost p: nat)
      requires Valid() && oid < TWO_64 && closePosition <= count
      modifies this, data
      ensures Holds() && size == old(size) && position == old(position)
      ensures r.Err? <==>
        || size <= PREFIX
        || At(old(count) + 1) > data.Length
        || (closePosition < 0 && exists k :: 0 <= k < old(count) && Sign(old(entries)[k], key, Slot()) == 0)
      ensures r.Err? ==> entries == old(entries) && data[..] == old(data[..])
      ensures r.Err? ==> r.error == if size <= PREFIX then LogicError else NotYetImplemented
      ensures r.Ok? ==>
        && p <= old(count) && (closePosition >= 0 ==> p == closePosition)
        && (closePosition < 0 ==> GapFor(old(entries), Slot(), key, p))
        && entries == Inserted(old(entries), p,
                               Entry(if |key| <= Slot() then 1 else 0, oid, Slotted(key, Slot())))
      ensures r.Ok? && closePosition < 0 ==> Valid()
      ensures r.Ok? && closePosition >= 0 ==>
                (Valid() <==> FitsAt(old(entries), closePosition, Slotted(key, Slot()), Slot()))
      ensures r.Ok? && Valid() ==>
        && KeysIncrease(entries)
        && Slotted(key, Slot()) !in Bindings(old(entries))
        && Bindings(entries) == Bindings(old(entries))[Slotted(key, Slot()) := oid]
    {
      hide Holds, Slotted, Sign, Inserted, Ascending, GapFor, FitsAt, Slots, At, Bindings, KeysIncrease;
      p := 0;
      if size < PREFIX + 1 {
        r := Err(LogicError);
        return;
      }
      Shape();
      var found, close := Place(key, closePosition);
      if found {
        r := Err(NotYetImplemented);
        return;
      }
      p := close;
      var maxCount := data.Length / size;
      Room();
      if count >= maxCount {
        r := Err(NotYetImplemented);
        return;
      }
      ghost var before := entries;
      InsertAt(close, if |key| <= size - PREFIX then COMPLETE else 0, oid, key);
      ghost var e := Entry(if |key| <= Slot() then COMPLETE else 0, oid, Slotted(key, Slot()));
      OrderAfter(before, key, closePosition, p, e);
      if Valid() {
        Shape();
        AscendingIncreases(entries, Slot());
        InsertBinds(before, Slot(), p, e);
      }
      r := Ok(());
    }

    lemma Room()
      requires size > 0
      ensures count >= data.Length / size <==> At(count + 1) > data.Length
      ensures At(count + 1) == At(count) + size
    {
      FullOrNot(count, size, data.Length);
      SpanFacts(count);
    }
  }
}
