/** Header fields and the dynamic table as a list, newest entry first (RFC 7541 section 4). */
module HpackFields {
  import opened Machine

  const OVERHEAD := 32

  function EntrySize(f: Field): nat { |f.name| + |f.value| + OVERHEAD }

  function TotalSize(entries: seq<Field>): nat {
    if entries == [] then 0 else TotalSize(entries[..|entries| - 1]) + EntrySize(entries[|entries| - 1])
  }

  /** Drops oldest entries until at most `limit` remains. */
  function Evict(entries: seq<Field>, limit: nat): (kept: seq<Field>)
    ensures kept <= entries && TotalSize(kept) <= limit
  {
    if TotalSize(entries) <= limit then entries else Evict(entries[..|entries| - 1], limit)
  }

  function Insert(entries: seq<Field>, maximum: nat, f: Field): (after: seq<Field>)
    ensures TotalSize(after) <= maximum
  {
    if EntrySize(f) > maximum then []
    else
      TotalSizeCons(f, Evict(entries, maximum - EntrySize(f)));
      [f] + Evict(entries, maximum - EntrySize(f))
  }

  lemma {:induction false} TotalSizeCons(f: Field, entries: seq<Field>)
    ensures TotalSize([f] + entries) == EntrySize(f) + TotalSize(entries)
  {
    if entries == [] {
      assert [f] + entries == [f];
      assert [f][..0] == [];
    } else {
      var n := |entries| - 1;
      assert ([f] + entries)[..n + 1] == [f] + entries[..n];
      TotalSizeCons(f, entries[..n]);
    }
  }

  /** Eviction stops as early as it can: what is kept is the longest run of newest entries that fits. */
  lemma {:induction false} EvictLongest(entries: seq<Field>, limit: nat, k: nat)
    requires k <= |entries| && TotalSize(entries[..k]) <= limit
    ensures k <= |Evict(entries, limit)|
  {
    if k == |entries| {
      assert entries[..k] == entries;
    } else if TotalSize(entries) > limit {
      var front := entries[..|entries| - 1];
      assert front[..k] == entries[..k];
      EvictLongest(front, limit, k);
    }
  }

  /** Evicting twice keeps what the smaller limit keeps. */
  lemma {:induction false} EvictTwice(entries: seq<Field>, a: nat, b: nat)
    ensures Evict(Evict(entries, a), b) == Evict(entries, Min(a, b))
  {
    if TotalSize(entries) > a {
      EvictTwice(entries[..|entries| - 1], a, b);
    }
  }

  /**
   * What inserting a field means: alone too large it empties the table; otherwise it is the newest entry, and behind
   * it stands the longest run of the newest earlier entries that fits beside it.
   */
  predicate NewestInserted(before: seq<Field>, after: seq<Field>, maximum: nat, f: Field) {
    var size := |f.name| + |f.value| + 32;
    if size > maximum then after == []
    else
      && after != [] && after[0] == f && after[1..] <= before && TotalSize(after[1..]) <= maximum - size
      && forall k :: |after| <= k <= |before| ==> TotalSize(before[..k]) > maximum - size
  }

  /** Insertion is the only thing that does this. */
  lemma InsertExact(before: seq<Field>, after: seq<Field>, maximum: nat, f: Field)
    ensures after == Insert(before, maximum, f) <==> NewestInserted(before, after, maximum, f)
  {
    if EntrySize(f) <= maximum {
      var limit := maximum - EntrySize(f);
      var kept := Evict(before, limit);
      forall k | |kept| < k <= |before|
        ensures TotalSize(before[..k]) > limit
      {
        if TotalSize(before[..k]) <= limit {
          EvictLongest(before, limit, k);
        }
      }
      if NewestInserted(before, after, maximum, f) {
        assert after[1..] == before[..|after| - 1];
        EvictLongest(before, limit, |after| - 1);
        assert kept == before[..|kept|];
        assert after == [f] + kept;
      }
    }
  }

  // ---- Capacity ----

  function SaturatingAdd(a: nat, b: nat): nat { Min(a + b, USIZE_MAX) }

  function SaturatingMul(a: nat, b: nat): nat { Min(a * b, USIZE_MAX) }

  /** The greatest maximum size that the stores can serve. */
  function StorageCapacity(storageLen: nat, entryCapacity: nat): nat {
    Min(SaturatingAdd(storageLen, OVERHEAD), SaturatingAdd(SaturatingMul(entryCapacity, OVERHEAD), OVERHEAD - 1))
  }

  function Octets(entries: seq<Field>): nat {
    if entries == [] then 0
    else Octets(entries[..|entries| - 1]) + |entries[|entries| - 1].name| + |entries[|entries| - 1].value|
  }

  lemma {:induction false} TotalIsOctets(entries: seq<Field>)
    ensures TotalSize(entries) == Octets(entries) + OVERHEAD * |entries|
  {
    if entries != [] {
      TotalIsOctets(entries[..|entries| - 1]);
    }
  }

  /** Every table of this maximum size has its octets and its entries fit the stores. */
  ghost predicate Serves(storageLen: nat, entryCapacity: nat, maximum: nat) {
    forall entries: seq<Field> :: TotalSize(entries) <= maximum ==> Fits(storageLen, entryCapacity, entries)
  }

  predicate Fits(storageLen: nat, entryCapacity: nat, entries: seq<Field>) {
    Octets(entries) <= storageLen && |entries| <= entryCapacity
  }

  function EmptyFields(n: nat): (entries: seq<Field>)
    ensures |entries| == n && TotalSize(entries) == OVERHEAD * n
  {
    if n == 0 then []
    else
      var front := EmptyFields(n - 1);
      assert (front + [Field([], [])])[..n - 1] == front;
      front + [Field([], [])]
  }

  /** The capacity formula is exact: a maximum size is safe for the stores if and only if it is within capacity. */
  lemma CapacityExact(storageLen: nat, entryCapacity: nat, maximum: nat)
    requires maximum <= USIZE_MAX
    ensures Serves(storageLen, entryCapacity, maximum) <==> maximum <= StorageCapacity(storageLen, entryCapacity)
  {
    if maximum <= StorageCapacity(storageLen, entryCapacity) {
      forall entries: seq<Field> | TotalSize(entries) <= maximum
        ensures Fits(storageLen, entryCapacity, entries)
      {
        TotalIsOctets(entries);
      }
    } else if storageLen + OVERHEAD < maximum {
      var name := seq(maximum - OVERHEAD, i => 0);
      var entries := [Field(name, [])];
      assert entries[..0] == [];
      assert TotalSize(entries) == TotalSize([]) + EntrySize(entries[0]);
      assert Octets(entries) == Octets([]) + |name|;
      assert !Fits(storageLen, entryCapacity, entries);
    } else {
      assert !Fits(storageLen, entryCapacity, EmptyFields(entryCapacity + 1));
    }
  }
}
