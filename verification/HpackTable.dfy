/**
 * The dynamic table: fields packed newest first at the front of a caller's octet buffer,
 * with a metadata slot each. Its contents are the list of `HpackFields`.
 */
module HpackTable {
  import opened Machine
  import opened HpackFields

  /** Where an entry lies in the octet buffer. */
  datatype Entry = Entry(offset: nat, nameLen: nat, valueLen: nat) {
    function End(): nat { offset + nameLen + valueLen }

    function Size(): nat { nameLen + valueLen + OVERHEAD }
  }

  datatype TableError = MaximumSizeExceedsCapacity(requested: nat, capacity: nat) | EntrySizeOverflow

  datatype InsertResult = Inserted | NotInsertedOversized

  // ---- Packed entries, on values ----

  function PackedEnd(entries: seq<Entry>): nat {
    if entries == [] then 0 else entries[|entries| - 1].End()
  }

  /** Entries lie one after another from offset 0. */
  predicate Packed(entries: seq<Entry>) {
    forall i :: 0 <= i < |entries| ==> InPlace(entries, i)
  }

  predicate InPlace(entries: seq<Entry>, i: nat)
    requires i < |entries|
  {
    entries[i].offset == PackedEnd(entries[..i])
  }

  lemma {:induction false} PackedWithin(entries: seq<Entry>, i: nat)
    requires Packed(entries) && i < |entries|
    ensures entries[i].End() <= PackedEnd(entries)
    decreases |entries|
  {
    var n := |entries| - 1;
    assert InPlace(entries, n);
    if i < n {
      PackedPrefix(entries, n);
      PackedWithin(entries[..n], i);
    }
  }

  lemma PackedPrefix(entries: seq<Entry>, k: nat)
    requires Packed(entries) && k <= |entries|
    ensures Packed(entries[..k])
  {
    forall i | 0 <= i < k
      ensures InPlace(entries[..k], i)
    {
      assert InPlace(entries, i);
      assert entries[..k][..i] == entries[..i];
    }
  }

  function FieldAt(e: Entry, octets: seq<byte>): Field
    requires e.End() <= |octets|
  {
    Field(octets[e.offset..e.offset + e.nameLen], octets[e.offset + e.nameLen..e.End()])
  }

  predicate Stored(entries: seq<Entry>, octets: seq<byte>) {
    Packed(entries) && forall i :: 0 <= i < |entries| ==> entries[i].End() <= |octets|
  }

  function Unpack(entries: seq<Entry>, octets: seq<byte>): (fields: seq<Field>)
    requires Stored(entries, octets)
    ensures |fields| == |entries|
  {
    seq(|entries|, i requires 0 <= i < |entries| => FieldAt(entries[i], octets))
  }

  lemma {:induction false} UnpackedOctets(entries: seq<Entry>, octets: seq<byte>)
    requires Stored(entries, octets)
    ensures Octets(Unpack(entries, octets)) == PackedEnd(entries)
    decreases |entries|
  {
    if entries != [] {
      var n := |entries| - 1;
      PackedPrefix(entries, n);
      UnpackedOctets(entries[..n], octets);
      assert Unpack(entries, octets)[..n] == Unpack(entries[..n], octets);
      assert InPlace(entries, n);
    }
  }

  lemma UnpackPrefix(entries: seq<Entry>, octets: seq<byte>, k: nat)
    requires Stored(entries, octets) && k <= |entries|
    ensures Stored(entries[..k], octets)
    ensures Unpack(entries[..k], octets) == Unpack(entries, octets)[..k]
  {
    PackedPrefix(entries, k);
  }

  function Shifted(entries: seq<Entry>, distance: nat): (after: seq<Entry>)
    ensures |after| == |entries|
  {
    seq(|entries|, i requires 0 <= i < |entries| => entries[i].(offset := entries[i].offset + distance))
  }

  lemma ShiftedPacked(entries: seq<Entry>, name: nat, value: nat)
    requires Packed(entries)
    ensures Packed([Entry(0, name, value)] + Shifted(entries, name + value))
  {
    var after := [Entry(0, name, value)] + Shifted(entries, name + value);
    forall i | 0 <= i < |after|
      ensures InPlace(after, i)
    {
      if i > 0 {
        assert InPlace(entries, i - 1);
        assert i > 1 ==> after[..i][i - 1] == Shifted(entries, name + value)[i - 2];
      }
    }
  }

  /** `after` holds the field and then the first `n` octets of `before`. */
  predicate Slid(before: seq<byte>, f: Field, n: nat, after: seq<byte>) {
    var d := |f.name| + |f.value|;
    && n <= |before| && d + n <= |after|
    && after[..|f.name|] == f.name && after[|f.name|..d] == f.value
    && after[d..d + n] == before[..n]
  }

  /** Sliding the octets and rebasing the offsets keeps the old fields and puts the new one in front. */
  lemma SlideKeepsFields(entries: seq<Entry>, before: seq<byte>, f: Field, after: seq<byte>)
    requires Stored(entries, before) && Slid(before, f, PackedEnd(entries), after)
    ensures var packed := [Entry(0, |f.name|, |f.value|)] + Shifted(entries, |f.name| + |f.value|);
            Stored(packed, after) && Unpack(packed, after) == [f] + Unpack(entries, before)
  {
    hide Packed;
    hide PackedEnd;
    hide Shifted;
    var d := |f.name| + |f.value|;
    var shifted := Shifted(entries, d);
    var packed := [Entry(0, |f.name|, |f.value|)] + shifted;
    ShiftedPacked(entries, |f.name|, |f.value|);
    SlidFields(entries, before, after, d);
    forall i | 0 <= i < |packed|
      ensures packed[i].End() <= |after|
      ensures FieldAt(packed[i], after) == if i == 0 then f else FieldAt(entries[i - 1], before)
    {
      assert i > 0 ==> packed[i] == shifted[i - 1];
    }
  }

  lemma SlidFields(entries: seq<Entry>, before: seq<byte>, after: seq<byte>, d: nat)
    requires Stored(entries, before) && d + PackedEnd(entries) <= |after| && PackedEnd(entries) <= |before|
    requires after[d..d + PackedEnd(entries)] == before[..PackedEnd(entries)]
    ensures forall i :: 0 <= i < |entries| ==>
              && Shifted(entries, d)[i].End() <= |after|
              && FieldAt(Shifted(entries, d)[i], after) == FieldAt(entries[i], before)
  {
    forall i | 0 <= i < |entries|
      ensures Shifted(entries, d)[i].End() <= |after|
      ensures FieldAt(Shifted(entries, d)[i], after) == FieldAt(entries[i], before)
    {
      PackedWithin(entries, i);
      SlidField(entries[i], before, after, d, PackedEnd(entries));
    }
  }

  lemma SlideSplices(before: seq<byte>, f: Field, n: nat)
    requires |f.name| + |f.value| + n <= |before|
    ensures var slid := Splice(before, |f.name| + |f.value|, before[..n]);
            Slid(before, f, n, Splice(Splice(slid, 0, f.name), |f.name|, f.value))
  {
    var d := |f.name| + |f.value|;
    var slid := Splice(before, d, before[..n]);
    var named := Splice(slid, 0, f.name);
    var after := Splice(named, |f.name|, f.value);
    SpliceReads(before, d, before[..n]);
    SpliceReads(slid, 0, f.name);
    SpliceReads(named, |f.name|, f.value);
    hide Splice;
    SliceOfTail(named, slid, |f.name|, d, d + n);
    SliceOfTail(after, named, d, d, d + n);
    assert after[..|f.name|] == named[..|f.name|] == named[0..0 + |f.name|];
  }

  lemma SlidField(e: Entry, before: seq<byte>, after: seq<byte>, d: nat, end: nat)
    requires e.End() <= end <= |before| && d + end <= |after|
    requires after[d..d + end] == before[..end]
    ensures FieldAt(e.(offset := e.offset + d), after) == FieldAt(e, before)
  {
    SlidSlice(before, after, d, end, e.offset, e.offset + e.nameLen);
    SlidSlice(before, after, d, end, e.offset + e.nameLen, e.End());
  }

  lemma SlidSlice(before: seq<byte>, after: seq<byte>, d: nat, end: nat, from: nat, to: nat)
    requires from <= to <= end <= |before| && d + end <= |after|
    requires after[d..d + end] == before[..end]
    ensures after[d + from..d + to] == before[from..to]
  {
    forall i | from <= i < to
      ensures after[d + i] == before[i]
    {
      assert after[d..d + end][i] == before[..end][i];
    }
  }

  /** The capacity alone leaves room for one more entry beside those that are kept. */
  lemma RoomForEntry(entries: seq<Entry>, octets: seq<byte>, maximum: nat, entrySize: nat, slots: nat)
    requires Stored(entries, octets)
    requires OVERHEAD <= entrySize <= maximum <= StorageCapacity(|octets|, slots)
    requires TotalSize(Unpack(entries, octets)) <= maximum - entrySize
    ensures PackedEnd(entries) + (entrySize - OVERHEAD) <= |octets|
    ensures |entries| + 1 <= slots
  {
    TotalIsOctets(Unpack(entries, octets));
    UnpackedOctets(entries, octets);
  }

  /** One turn of the eviction loop. */
  lemma DropOldest(fields: seq<Field>, k: nat, limit: nat)
    requires 0 < k <= |fields|
    ensures TotalSize(fields[..k]) == TotalSize(fields[..k - 1]) + EntrySize(fields[k - 1])
    ensures TotalSize(fields[..k]) > limit ==> Evict(fields[..k], limit) == Evict(fields[..k - 1], limit)
  {
    assert fields[..k][..k - 1] == fields[..k - 1];
  }

  lemma EvictDone(fields: seq<Field>, limit: nat)
    ensures fields == [] || TotalSize(fields) <= limit ==> Evict(fields, limit) == fields
  {
  }

  // ---- The table ----

  class HpackDynamicTable {
    const storage: array<byte>
    const entries: array<Entry>
    const capacity: nat
    var count: nat
    var size: nat
    var maximumSize: nat

    ghost predicate Valid()
      reads this, storage, entries
    {
      && capacity == StorageCapacity(storage.Length, entries.Length)
      && count <= entries.Length
      && Stored(entries[..count], storage[..])
      && size == TotalSize(Contents()) <= maximumSize <= capacity
    }

    ghost function Contents(): (fields: seq<Field>)
      requires count <= entries.Length && Stored(entries[..count], storage[..])
      reads this, storage, entries
    {
      Unpack(entries[..count], storage[..])
    }

    constructor (storage: array<byte>, entries: array<Entry>, maximumSize: nat)
      requires maximumSize <= StorageCapacity(storage.Length, entries.Length)
      ensures Valid() && Contents() == []
      ensures this.storage == storage && this.entries == entries && this.maximumSize == maximumSize
    {
      this.storage := storage;
      this.entries := entries;
      this.capacity := StorageCapacity(storage.Length, entries.Length);
      this.count := 0;
      this.size := 0;
      this.maximumSize := maximumSize;
      new;
      assert this.entries[..0] == [];
      assert Packed([]);
    }

    /** Creates an empty table; the maximum is checked before anything else. */
    static method Create(storage: array<byte>, entries: array<Entry>, maximumSize: nat)
      returns (r: Result<HpackDynamicTable, TableError>)
      ensures var capacity := StorageCapacity(storage.Length, entries.Length);
              && (maximumSize > capacity ==> r == Err(MaximumSizeExceedsCapacity(maximumSize, capacity)))
              && (maximumSize <= capacity ==>
                    && r.Ok? && fresh(r.value) && r.value.Valid() && r.value.Contents() == []
                    && r.value.storage == storage && r.value.entries == entries && r.value.maximumSize == maximumSize)
    {
      var capacity := StorageCapacity(storage.Length, entries.Length);
      if maximumSize > capacity {
        return Err(MaximumSizeExceedsCapacity(maximumSize, capacity));
      }
      var created := new HpackDynamicTable(storage, entries, maximumSize);
      return Ok(created);
    }

    /** The field at a one-based index, where 1 is newest. */
    function Get(index: nat): (r: Option<Field>)
      requires Valid()
      reads this, storage, entries
      ensures r == if 1 <= index <= |Contents()| then Some(Contents()[index - 1]) else None
    {
      if index == 0 || index - 1 >= count then None
      else
        var e := entries[index - 1];
        assert e == entries[..count][index - 1];
        Some(Field(storage[e.offset..e.offset + e.nameLen], storage[e.offset + e.nameLen..e.End()]))
    }

    method Clear()
      requires Valid()
      modifies this`count, this`size
      ensures Valid() && Contents() == []
    {
      count := 0;
      size := 0;
      assert entries[..0] == [];
    }

    /** How many of the newest entries fit in `limit`, and their size: the eviction loop. */
    method Retained(limit: nat) returns (retained: nat, retainedSize: nat)
      requires Valid()
      ensures retained <= count && Contents()[..retained] == Evict(Contents(), limit)
      ensures retainedSize == TotalSize(Evict(Contents(), limit))
    {
      hide TotalSize;
      hide Evict;
      hide Packed;
      hide PackedEnd;
      retained, retainedSize := count, size;
      ghost var fields := Contents();
      assert fields[..count] == fields;
      while retained > 0 && retainedSize > limit
        invariant retained <= count
        invariant retainedSize == TotalSize(fields[..retained])
        invariant Evict(fields, limit) == Evict(fields[..retained], limit)
      {
        DropOldest(fields, retained, limit);
        retained := retained - 1;
        assert entries[retained] == entries[..count][retained];
        assert EntrySize(fields[retained]) == entries[retained].Size();
        retainedSize := retainedSize - entries[retained].Size();
      }
      EvictDone(fields[..retained], limit);
    }

    /** Sets a maximum already known to be within capacity. */
    method SetMaximumSizePrevalidated(maximum: nat)
      requires Valid() && maximum <= capacity
      modifies this`count, this`size, this`maximumSize
      ensures Valid() && maximumSize == maximum
      ensures Contents() == Evict(old(Contents()), maximum)
    {
      var retained, retainedSize := Retained(maximum);
      UnpackPrefix(entries[..count], storage[..], retained);
      assert entries[..count][..retained] == entries[..retained];
      count := retained;
      size := retainedSize;
      maximumSize := maximum;
    }

    method SetMaximumSize(maximum: nat) returns (r: Result<(), TableError>)
      requires Valid()
      modifies this`count, this`size, this`maximumSize
      ensures Valid()
      ensures r == if maximum > capacity then Err(MaximumSizeExceedsCapacity(maximum, capacity)) else Ok(())
      ensures r.Ok? ==> maximumSize == maximum && Contents() == Evict(old(Contents()), maximum)
      ensures r.Err? ==> maximumSize == old(maximumSize) && Contents() == old(Contents())
    {
      if maximum > capacity {
        return Err(MaximumSizeExceedsCapacity(maximum, capacity));
      }
      SetMaximumSizePrevalidated(maximum);
      return Ok(());
    }

    /** Slides the kept octets up and writes the new field below them. */
    method SlideStorage(f: Field, retainedOctets: nat)
      requires |f.name| + |f.value| + retainedOctets <= storage.Length
      modifies storage
      ensures Slid(old(storage[..]), f, retainedOctets, storage[..])
    {
      SlideSplices(storage[..], f, retainedOctets);
      assert storage[..][0..retainedOctets] == storage[..][..retainedOctets];
      hide Splice;
      hide Slid;
      CopyWithin(storage, 0, retainedOctets, |f.name| + |f.value|);
      CopyFromSlice(storage, 0, f.name);
      CopyFromSlice(storage, |f.name|, f.value);
    }

    /** Moves the kept slots up by one, rebases their offsets and fills the first slot. */
    method SlideEntries(retained: nat, nameLen: nat, valueLen: nat)
      requires retained + 1 <= entries.Length
      modifies entries
      ensures entries[..retained + 1]
              == [Entry(0, nameLen, valueLen)] + Shifted(old(entries[..retained]), nameLen + valueLen)
    {
      ghost var kept := entries[..retained];
      var distance := nameLen + valueLen;
      ghost var shifted := Shifted(kept, distance);
      if retained > 0 {
        CopyWithin(entries, 0, retained, 1);
        assert forall j :: 1 <= j <= retained ==> entries[..][j] == kept[j - 1];
        for i := 1 to retained + 1
          invariant forall j :: 1 <= j < i ==> entries[j] == shifted[j - 1]
          invariant forall j :: i <= j <= retained ==> entries[j] == kept[j - 1]
        {
          assert shifted[i - 1] == kept[i - 1].(offset := kept[i - 1].offset + distance);
          entries[i] := entries[i].(offset := entries[i].offset + distance);
        }
      }
      entries[0] := Entry(0, nameLen, valueLen);
    }

    /** Inserts a field whose entry size the caller has computed. It cannot fail. */
    method InsertPrevalidated(name: seq<byte>, value: seq<byte>, entrySize: nat) returns (r: InsertResult)
      requires Valid() && entrySize == EntrySize(Field(name, value))
      modifies this`count, this`size, storage, entries
      ensures Valid()
      ensures Contents() == Insert(old(Contents()), maximumSize, Field(name, value))
      ensures NewestInserted(old(Contents()), Contents(), maximumSize, Field(name, value))
      ensures r == if entrySize > maximumSize then NotInsertedOversized else Inserted
    {
      InsertExact(Contents(), Insert(Contents(), maximumSize, Field(name, value)), maximumSize, Field(name, value));
      hide NewestInserted;
      hide TotalSize;
      hide Evict;
      hide Packed;
      if entrySize > maximumSize {
        Clear();
        return NotInsertedOversized;
      }
      var retained, retainedSize := Retained(maximumSize - entrySize);
      InsertFitting(name, value, entrySize, retained, retainedSize);
      return Inserted;
    }

    /** Keeps the newest `retained` entries and puts the field in front of them. */
    method InsertFitting(name: seq<byte>, value: seq<byte>, entrySize: nat, retained: nat, retainedSize: nat)
      requires Valid() && entrySize == EntrySize(Field(name, value)) <= maximumSize
      requires retained <= count && retainedSize == TotalSize(Contents()[..retained]) <= maximumSize - entrySize
      modifies this`count, this`size, storage, entries
      ensures Valid()
      ensures Contents() == [Field(name, value)] + old(Contents()[..retained])
    {
      hide Packed;
      hide TotalSize;
      ghost var fields, octets, kept := Contents()[..retained], storage[..], entries[..retained];
      UnpackPrefix(entries[..count], octets, retained);
      assert entries[..count][..retained] == kept;
      RoomForEntry(kept, octets, maximumSize, entrySize, entries.Length);
      var retainedOctets := if retained == 0 then 0 else entries[retained - 1].End();
      assert retainedOctets == PackedEnd(kept);
      SlideStorage(Field(name, value), retainedOctets);
      SlideEntries(retained, |name|, |value|);
      SlideKeepsFields(kept, octets, Field(name, value), storage[..]);
      count := retained + 1;
      size := retainedSize + entrySize;
      TotalSizeCons(Field(name, value), fields);
    }

    /** The checked form: the only failure is that the entry size is not a machine integer. */
    method InsertField(name: seq<byte>, value: seq<byte>) returns (r: Result<InsertResult, TableError>)
      requires Valid()
      modifies this`count, this`size, storage, entries
      ensures Valid()
      ensures r.Err? <==> EntrySize(Field(name, value)) > USIZE_MAX
      ensures r.Err? ==> Contents() == old(Contents())
      ensures r.Ok? ==> Contents() == Insert(old(Contents()), maximumSize, Field(name, value))
      ensures r.Ok? ==> NewestInserted(old(Contents()), Contents(), maximumSize, Field(name, value))
    {
      hide NewestInserted;
      if EntrySize(Field(name, value)) > USIZE_MAX {
        return Err(EntrySizeOverflow);
      }
      var inserted := InsertPrevalidated(name, value, EntrySize(Field(name, value)));
      return Ok(inserted);
    }
  }
}
