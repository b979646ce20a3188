/** Streams that wait for inserts: a fixed array of records acting as a bounded map. */
module QpackBlockedStreams {
  import opened Machine

  datatype Record = Record(occupied: bool, stream: u64, required: u64)

  const EMPTY := Record(false, 0, 0)

  datatype BlockedError =
    | MaximumBlockedStreamsExceedsStorage(maximum: u64, capacity: nat)
    | BlockedStreamsLimitExceeded(maximum: u64)

  // ---- Records as a map ----

  predicate Holds(r: Record, stream: u64) { r.occupied && r.stream == stream }

  /** No stream has two records. */
  predicate Distinct(records: seq<Record>) {
    forall i, j :: 0 <= i < j < |records| && records[i].occupied ==> !Holds(records[j], records[i].stream)
  }

  function Streams(records: seq<Record>): set<u64> {
    set r | r in records && r.occupied :: r.stream
  }

  /** The records say exactly what the map says. */
  predicate Represents(records: seq<Record>, waiting: map<u64, u64>) {
    && Distinct(records)
    && Streams(records) == waiting.Keys
    && forall r :: r in records && r.occupied ==> r.stream in waiting && waiting[r.stream] == r.required
  }

  lemma StreamsSnoc(records: seq<Record>, last: Record)
    ensures Streams(records + [last]) == Streams(records) + if last.occupied then {last.stream} else {}
  {
    forall s | s in Streams(records + [last])
      ensures s in Streams(records) || (last.occupied && s == last.stream)
    {
      var r :| r in records + [last] && r.occupied && r.stream == s;
    }
    forall s | s in Streams(records)
      ensures s in Streams(records + [last])
    {
      var r :| r in records && r.occupied && r.stream == s;
      assert r in records + [last];
    }
    assert last in records + [last];
  }

  predicate Full(records: seq<Record>) {
    forall i :: 0 <= i < |records| ==> records[i].occupied
  }

  lemma LastIsNew(records: seq<Record>, n: nat)
    requires Distinct(records) && Full(records) && |records| == n + 1
    ensures Distinct(records[..n]) && Full(records[..n])
    ensures records[n].stream !in Streams(records[..n])
  {
    var before := records[..n];
    forall r | r in before
      ensures r.stream != records[n].stream
    {
      var i :| 0 <= i < n && before[i] == r;
      assert records[i] == r;
    }
  }

  /** Occupied records with distinct streams register as many streams as there are records. */
  lemma {:induction false} FullCount(records: seq<Record>)
    requires Distinct(records) && Full(records)
    ensures |Streams(records)| == |records|
    decreases |records|
  {
    if records != [] {
      var n := |records| - 1;
      LastIsNew(records, n);
      FullCount(records[..n]);
      assert records == records[..n] + [records[n]];
      StreamsSnoc(records[..n], records[n]);
    }
  }

  /** The pigeonhole: fewer registered streams than records leaves a free record. */
  lemma FreeRecord(records: seq<Record>, waiting: map<u64, u64>)
    requires Represents(records, waiting) && |waiting| < |records|
    ensures !Full(records)
  {
    assert |waiting| == |waiting.Keys|;
    if Full(records) {
      FullCount(records);
      assert false;
    }
  }

  /** Writing one record: the stream it held leaves the map, the one it holds enters. */
  lemma Rewritten(records: seq<Record>, waiting: map<u64, u64>, i: nat, r: Record)
    requires Represents(records, waiting) && i < |records|
    requires r.occupied && r.stream in waiting ==> Holds(records[i], r.stream)
    ensures var kept := if records[i].occupied then waiting - {records[i].stream} else waiting;
            Represents(records[i := r], if r.occupied then kept[r.stream := r.required] else kept)
  {
    var after := records[i := r];
    var kept := if records[i].occupied then waiting - {records[i].stream} else waiting;
    var updated := if r.occupied then kept[r.stream := r.required] else kept;
    forall k | 0 <= k < |records| && records[k].occupied
      ensures records[k].stream in waiting && waiting[records[k].stream] == records[k].required
      ensures k != i && records[i].occupied ==> records[k].stream != records[i].stream
    {
      assert records[k] in records;
      assert records[k].stream in Streams(records);
    }
    forall s | s in Streams(after)
      ensures s in updated
    {
      var t :| t in after && t.occupied && t.stream == s;
      var k :| 0 <= k < |after| && after[k] == t;
      assert k != i ==> records[k] == t;
    }
    forall s | s in updated
      ensures s in Streams(after)
    {
      if !(r.occupied && s == r.stream) {
        assert s in Streams(records);
        var t :| t in records && t.occupied && t.stream == s;
        var k :| 0 <= k < |records| && records[k] == t;
        assert k != i;
        assert after[k] == t;
      } else {
        assert after[i] == r;
      }
    }
    forall t | t in after && t.occupied
      ensures t.stream in updated && updated[t.stream] == t.required
    {
      var k :| 0 <= k < |after| && after[k] == t;
      assert k != i ==> records[k] == t;
    }
  }

  /** A registered stream has a record, with the count the map gives it. */
  lemma RecordOf(records: seq<Record>, waiting: map<u64, u64>, stream: u64) returns (i: nat)
    requires Represents(records, waiting) && stream in waiting
    ensures i < |records| && Holds(records[i], stream) && records[i].required == waiting[stream]
  {
    assert stream in Streams(records);
    var r :| r in records && r.occupied && r.stream == stream;
    i :| 0 <= i < |records| && records[i] == r;
  }

  lemma SizeWithout(waiting: map<u64, u64>, stream: u64)
    requires stream in waiting
    ensures |waiting - {stream}| == |waiting| - 1
  {
    assert waiting.Keys == (waiting - {stream}).Keys + {stream};
  }

  /** Raising the count of a stream in its own record. */
  lemma Raised(records: seq<Record>, waiting: map<u64, u64>, i: nat, required: u64)
    requires Represents(records, waiting) && i < |records| && records[i].occupied
    ensures Represents(records[i := records[i].(required := required)], waiting[records[i].stream := required])
  {
    var stream := records[i].stream;
    Rewritten(records, waiting, i, records[i].(required := required));
    assert (waiting - {stream})[stream := required] == waiting[stream := required];
  }

  // ---- Operations on the map ----

  /** Registering keeps the greatest count a stream waits for, and admits a new one below the maximum. */
  function Registered(waiting: map<u64, u64>, maximum: u64, stream: u64, required: u64)
    : Result<map<u64, u64>, BlockedError>
  {
    if stream in waiting then Ok(waiting[stream := Max(waiting[stream], required)])
    else if |waiting| >= maximum then Err(BlockedStreamsLimitExceeded(maximum))
    else Ok(waiting[stream := required])
  }

  predicate Blocked(waiting: map<u64, u64>, stream: u64, insertCount: u64) {
    stream in waiting && waiting[stream] > insertCount
  }

  /**
   * Registering is refused exactly when a further stream would pass the maximum. Otherwise the stream waits at an
   * insert count exactly when it did before or the new section does, and no other stream is touched.
   */
  lemma RegisteredMeaning(waiting: map<u64, u64>, maximum: u64, stream: u64, required: u64,
                          other: u64, insertCount: u64)
    requires |waiting| <= maximum
    ensures var r := Registered(waiting, maximum, stream, required);
            && (r == Err(BlockedStreamsLimitExceeded(maximum)) <==> r.Err?)
            && (r.Err? <==> |waiting.Keys + {stream}| > maximum)
            && (r.Ok? ==> r.value.Keys == waiting.Keys + {stream})
            && (r.Ok? ==> (Blocked(r.value, other, insertCount) <==>
                             Blocked(waiting, other, insertCount) || (other == stream && required > insertCount)))
  {
    if stream in waiting {
      assert waiting.Keys + {stream} == waiting.Keys;
    } else {
      assert |waiting.Keys + {stream}| == |waiting| + 1;
    }
  }

  /** The records an iteration yields, in storage order. */
  function Ready(records: seq<Record>, insertCount: u64): (ready: seq<Record>) {
    if records == [] then []
    else if records[0].occupied && records[0].required <= insertCount
    then [records[0]] + Ready(records[1..], insertCount)
    else Ready(records[1..], insertCount)
  }

  lemma {:induction false} ReadyMember(records: seq<Record>, insertCount: u64, r: Record)
    ensures r in Ready(records, insertCount) <==> r in records && r.occupied && r.required <= insertCount
    decreases |records|
  {
    if records != [] {
      ReadyMember(records[1..], insertCount, r);
      assert records == [records[0]] + records[1..];
    }
  }

  lemma {:induction false} ReadyDistinct(records: seq<Record>, insertCount: u64)
    requires Distinct(records)
    ensures Distinct(Ready(records, insertCount))
    decreases |records|
  {
    if records != [] {
      var rest := Ready(records[1..], insertCount);
      ReadyDistinct(records[1..], insertCount);
      forall j | 0 <= j < |rest|
        ensures records[0].occupied ==> !Holds(rest[j], records[0].stream)
      {
        ReadyMember(records[1..], insertCount, rest[j]);
        var k :| 0 <= k < |records[1..]| && records[1..][k] == rest[j];
        assert records[k + 1] == rest[j];
      }
    }
  }

  /** At any insert count a registered stream is either blocked or yielded exactly once, never both. */
  lemma ReadyPartition(records: seq<Record>, waiting: map<u64, u64>, insertCount: u64, stream: u64)
    requires Represents(records, waiting)
    ensures Distinct(Ready(records, insertCount))
    ensures stream in Streams(Ready(records, insertCount)) <==>
            stream in waiting && !Blocked(waiting, stream, insertCount)
  {
    var ready := Ready(records, insertCount);
    ReadyDistinct(records, insertCount);
    if stream in Streams(ready) {
      var r :| r in ready && r.occupied && r.stream == stream;
      ReadyMember(records, insertCount, r);
    }
    if stream in waiting && waiting[stream] <= insertCount {
      assert stream in Streams(records);
      var r :| r in records && r.occupied && r.stream == stream;
      ReadyMember(records, insertCount, r);
    }
  }

  // ---- The array ----

  class QpackBlockedStreams {
    const records: array<Record>
    const maximum: u64
    var len: nat
    ghost var waiting: map<u64, u64>

    ghost predicate Valid()
      reads this, records
    {
      Represents(records[..], waiting) && len == |waiting| <= maximum <= records.Length
    }

    /** The result of `Create`: the records are only cleared when the maximum fits them. */
    constructor (records: array<Record>, maximum: u64)
      requires maximum <= records.Length
      modifies records
      ensures Valid() && waiting == map[] && this.records == records && this.maximum == maximum
      ensures forall i :: 0 <= i < records.Length ==> records[i] == Record(false, 0, 0)
    {
      this.records := records;
      this.maximum := maximum;
      this.len := 0;
      this.waiting := map[];
      new;
      forall i | 0 <= i < records.Length {
        records[i] := EMPTY;
      }
    }

    static method Create(records: array<Record>, maximum: u64) returns (r: Result<QpackBlockedStreams, BlockedError>)
      modifies records
      ensures r.Ok? <==> maximum <= records.Length
      ensures r.Ok? ==> fresh(r.value) && r.value.Valid() && r.value.waiting == map[]
                        && r.value.records == records && r.value.maximum == maximum
      ensures r.Err? ==> r.error == MaximumBlockedStreamsExceedsStorage(maximum, records.Length)
                         && records[..] == old(records[..])
    {
      if maximum > records.Length {
        return Err(MaximumBlockedStreamsExceedsStorage(maximum, records.Length));
      }
      var created := new QpackBlockedStreams(records, maximum);
      return Ok(created);
    }

    /** The record of a stream, or the number of records. */
    method Find(stream: u64) returns (index: nat)
      requires Valid()
      ensures index <= records.Length
      ensures index < records.Length ==>
              Holds(records[index], stream) && stream in waiting && waiting[stream] == records[index].required
      ensures index == records.Length <==> stream !in waiting
    {
      index := 0;
      while index < records.Length
        invariant index <= records.Length
        invariant forall k :: 0 <= k < index ==> !Holds(records[k], stream)
      {
        if records[index].occupied && records[index].stream == stream {
          assert records[index] in records[..];
          return;
        }
        index := index + 1;
      }
      assert stream !in Streams(records[..]);
    }

    method Contains(stream: u64) returns (found: bool)
      requires Valid()
      ensures found <==> stream in waiting
    {
      var index := Find(stream);
      return index < records.Length;
    }

    /** Whether a registered stream still waits at an insert count. */
    method IsBlocked(stream: u64, insertCount: u64) returns (blocked: bool)
      requires Valid()
      ensures blocked <==> Blocked(waiting, stream, insertCount)
    {
      var k := 0;
      while k < records.Length
        invariant k <= records.Length
        invariant forall j :: 0 <= j < k ==> !(Holds(records[j], stream) && records[j].required > insertCount)
      {
        if records[k].occupied && records[k].stream == stream && records[k].required > insertCount {
          assert records[k] in records[..];
          return true;
        }
        k := k + 1;
      }
      if stream in waiting {
        ghost var i := RecordOf(records[..], waiting, stream);
      }
      return false;
    }

    /** Registers a waiting section. When no record is free the limit has already been reached. */
    method Register(stream: u64, required: u64) returns (r: Result<(), BlockedError>)
      requires Valid()
      modifies this, records
      ensures Valid()
      ensures match Registered(old(waiting), maximum, stream, required)
              case Ok(next) => r == Ok(()) && waiting == next
              case Err(e) => r == Err(e) && waiting == old(waiting) && records[..] == old(records[..])
    {
      var index := Find(stream);
      if index < records.Length {
        var record := records[index].(required := Max(records[index].required, required));
        assert records[index] in records[..];
        Raised(records[..], waiting, index, record.required);
        Put(records, index, record);
        waiting := waiting[stream := record.required];
        return Ok(());
      }
      if len >= maximum {
        return Err(BlockedStreamsLimitExceeded(maximum));
      }
      FreeRecord(records[..], waiting);
      ghost var vacant: nat :| vacant < records.Length && !records[vacant].occupied;
      var free := 0;
      while free < records.Length
        invariant free <= vacant
        invariant Valid() && waiting == old(waiting) && len == old(len)
        decreases records.Length - free
      {
        if !records[free].occupied {
          Occupy(free, stream, required);
          return Ok(());
        }
        free := free + 1;
      }
      assert false;
    }

    /** Fills a free record with a new stream. */
    method Occupy(free: nat, stream: u64, required: u64)
      requires Valid() && free < records.Length && !records[free].occupied
      requires stream !in waiting && len < maximum
      modifies this, records
      ensures Valid() && waiting == old(waiting)[stream := required]
    {
      Rewritten(records[..], waiting, free, Record(true, stream, required));
      hide Represents;
      Put(records, free, Record(true, stream, required));
      waiting := waiting[stream := required];
      len := len + 1;
    }

    /** Forgets a stream, and says whether it was registered. */
    method Remove(stream: u64) returns (removed: bool)
      requires Valid()
      modifies this, records
      ensures Valid() && waiting == old(waiting) - {stream}
      ensures removed <==> stream in old(waiting)
    {
      var index := Find(stream);
      if index == records.Length {
        assert waiting - {stream} == waiting;
        return false;
      }
      Rewritten(records[..], waiting, index, EMPTY);
      hide Represents;
      Put(records, index, EMPTY);
      SizeWithout(waiting, stream);
      waiting := waiting - {stream};
      len := len - 1;
      return true;
    }

    /** Starts an iteration over the streams that no longer wait. */
    method ReadyStreams(insertCount: u64) returns (iter: QpackReadyBlockedStreamIter)
      requires Valid()
      ensures fresh(iter) && iter.remaining == records[..] && iter.insertCount == insertCount
    {
      iter := new QpackReadyBlockedStreamIter(records[..], insertCount);
    }
  }

  class QpackReadyBlockedStreamIter {
    var remaining: seq<Record>
    const insertCount: u64

    constructor (records: seq<Record>, insertCount: u64)
      ensures remaining == records && this.insertCount == insertCount
    {
      this.remaining := records;
      this.insertCount := insertCount;
    }

    /** Yields the next ready record; once there is none, there never is. */
    method Next() returns (r: Option<Record>)
      modifies this
      ensures match r
              case Some(record) => Ready(old(remaining), insertCount) == [record] + Ready(remaining, insertCount)
              case None => Ready(old(remaining), insertCount) == [] && remaining == []
    {
      while remaining != []
        invariant Ready(remaining, insertCount) == Ready(old(remaining), insertCount)
        decreases |remaining|
      {
        var record := remaining[0];
        remaining := remaining[1..];
        if record.occupied && record.required <= insertCount {
          return Some(record);
        }
      }
      return None;
    }
  }
}
