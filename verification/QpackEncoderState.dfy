/**
 * The encoder's accounting as it is stored: section slots and reference occurrences packed
 * at the front of two caller-owned buffers, with every slot behind them cleared.
 */
module QpackEncoderState {
  import opened Machine
  import opened QpackInstructions
  import opened QpackAccounting

  /** Where a section's references lie in the shared buffer. */
  datatype Slot = Slot(stream: u64, required: u64, start: nat, len: nat)

  const EMPTY := Slot(0, 0, 0, 0)

  datatype SequenceApplyError =
    | SequenceMalformed(error: SequenceError)
    | ApplyFailed(offset: nat, failure: ApplyError)

  /** A registration that has been checked but not yet made. */
  datatype Registration = Registration(stream: u64, required: u64, references: seq<u64>, start: nat)

  // ---- The packed form of a list of sections ----

  function Slots(sections: seq<Section>, base: nat): (slots: seq<Slot>)
    ensures |slots| == |sections|
  {
    if sections == [] then []
    else
      var s := sections[0];
      [Slot(s.stream, s.required, base, |s.references|)] + Slots(sections[1..], base + |s.references|)
  }

  function Vacant(n: nat): (slots: seq<Slot>)
    ensures |slots| == n && forall s :: s in slots ==> s == Slot(0, 0, 0, 0)
  {
    seq(n, _ => EMPTY)
  }

  function Zeros(n: nat): seq<u64> { seq(n, _ => 0) }

  /** The whole slot buffer: the sections, then `free` cleared slots. */
  function PackedSlots(sections: seq<Section>, free: nat): (buffer: seq<Slot>)
    ensures |buffer| == |sections| + free
  {
    Slots(sections, 0) + Vacant(free)
  }

  /** The whole reference buffer. */
  function PackedReferences(sections: seq<Section>, free: nat): (buffer: seq<u64>)
    ensures |buffer| == |Flat(sections)| + free
  {
    Flat(sections) + Zeros(free)
  }

  /** A slot says what its section says, and where its references begin. */
  lemma PackedSlotAt(sections: seq<Section>, free: nat, k: nat)
    requires k < |sections|
    ensures var slot := PackedSlots(sections, free)[k];
            slot == Slot(sections[k].stream, sections[k].required, |Flat(sections[..k])|, |sections[k].references|)
  {
    SlotsAround(sections[..k], sections[k], sections[k + 1..]);
    assert sections == sections[..k] + [sections[k]] + sections[k + 1..];
  }

  lemma {:induction false} SlotsConcat(a: seq<Section>, b: seq<Section>, base: nat)
    ensures Slots(a + b, base) == Slots(a, base) + Slots(b, base + |Flat(a)|)
    decreases |a|
  {
    if a == [] {
      assert a + b == b;
    } else {
      assert (a + b)[1..] == a[1..] + b;
      SlotsConcat(a[1..], b, base + |a[0].references|);
    }
  }

  /** Packing a run of sections at an earlier place moves every start down by the same distance. */
  lemma {:induction false} SlotRebased(sections: seq<Section>, base: nat, distance: nat, k: nat)
    requires distance <= base && k < |sections|
    ensures var slot := Slots(sections, base)[k];
            distance <= slot.start && Slots(sections, base - distance)[k] == slot.(start := slot.start - distance)
    decreases |sections|
  {
    if k > 0 {
      SlotRebased(sections[1..], base + |sections[0].references|, distance, k - 1);
    }
  }

  /** A section between the ones before it and the ones after it, in the reference buffer. */
  lemma FlatAround(a: seq<Section>, s: Section, b: seq<Section>)
    ensures Flat(a + [s] + b) == Flat(a) + s.references + Flat(b)
    ensures Flat(a + b) == Flat(a) + Flat(b)
  {
    assert Flat([s]) == s.references + Flat([]) == s.references;
    hide Flat;
    FlatConcat(a, b);
    FlatConcat(a, [s]);
    FlatConcat(a + [s], b);
  }

  /** The same in the slots. */
  lemma SlotsAround(a: seq<Section>, s: Section, b: seq<Section>)
    ensures Slots(a + [s] + b, 0) == Slots(a, 0) + [Slot(s.stream, s.required, |Flat(a)|, |s.references|)]
                                     + Slots(b, |Flat(a)| + |s.references|)
    ensures Slots(a + b, 0) == Slots(a, 0) + Slots(b, |Flat(a)|)
  {
    FlatAround(a, s, []);
    assert a + [s] + [] == a + [s];
    assert Flat(a + [s]) == Flat(a) + s.references + Flat([]) == Flat(a) + s.references;
    assert Slots([s], |Flat(a)|) == [Slot(s.stream, s.required, |Flat(a)|, |s.references|)];
    hide Slots;
    hide Flat;
    SlotsConcat(a, b, 0);
    SlotsConcat(a, [s], 0);
    SlotsConcat(a + [s], b, 0);
  }

  /** Closing the gap that removed references leave, and clearing the end. */
  lemma ReferencesClosed(a: seq<u64>, r: seq<u64>, b: seq<u64>, free: nat)
    ensures var before := a + r + b + Zeros(free);
            Splice(Splice(before, |a|, before[|a| + |r|..|a| + |r| + |b|]), |a| + |b|, Zeros(|r|))
            == a + b + Zeros(|r| + free)
  {
    var before := a + r + b + Zeros(free);
    assert before[|a| + |r|..|a| + |r| + |b|] == b;
    var moved := Splice(before, |a|, b);
    assert moved[..|a| + |b|] == a + b;
    assert moved[|a| + |r| + |b|..] == Zeros(free);
  }

  /** The same for the slots, where one slot goes. */
  lemma SlotsClosed(a: seq<Slot>, s: Slot, b: seq<Slot>, free: nat)
    ensures var before := a + [s] + b + Vacant(free);
            Splice(before, |a|, before[|a| + 1..|a| + 1 + |b|])[|a| + |b| := EMPTY]
            == a + b + Vacant(free + 1)
  {
    var before := a + [s] + b + Vacant(free);
    assert before[|a| + 1..|a| + 1 + |b|] == b;
  }

  lemma FlatSplit(sections: seq<Section>, index: nat)
    requires index < |sections|
    ensures Flat(sections) == Flat(sections[..index]) + sections[index].references + Flat(sections[index + 1..])
    ensures Flat(Removed(sections, index)) == Flat(sections[..index]) + Flat(sections[index + 1..])
  {
    hide Flat;
    var a, s, b := sections[..index], sections[index], sections[index + 1..];
    Parted(sections, index);
    hide Removed;
    FlatAround(a, s, b);
  }

  lemma Parted(sections: seq<Section>, index: nat)
    requires index < |sections|
    ensures sections == sections[..index] + [sections[index]] + sections[index + 1..]
    ensures Removed(sections, index) == sections[..index] + sections[index + 1..]
  {
  }

  /** A section's references out of the whole buffer. */
  lemma ReferencesRemoved(sections: seq<Section>, index: nat, free: nat)
    requires index < |sections|
    ensures var start, len, end := |Flat(sections[..index])|, |sections[index].references|, |Flat(sections)|;
            var before := PackedReferences(sections, free);
            && start + len <= end
            && Splice(Splice(before, start, before[start + len..end]), end - len, Zeros(len))
               == PackedReferences(Removed(sections, index), free + len)
  {
    hide Flat;
    hide Removed;
    hide Splice;
    hide Zeros;
    FlatSplit(sections, index);
    ReferencesClosed(Flat(sections[..index]), sections[index].references, Flat(sections[index + 1..]), free);
  }

  /** The slot buffer when the first `k` slots behind a removed one have been rebased. */
  function Rebased(sections: seq<Section>, index: nat, free: nat, k: nat): (buffer: seq<Slot>)
    requires index < |sections| && k <= |sections| - index - 1
    ensures |buffer| == |sections| + free
  {
    var start := |Flat(sections[..index])|;
    var behind := sections[index + 1..];
    Slots(sections[..index + 1], 0) + Slots(behind, start)[..k]
    + Slots(behind, start + |sections[index].references|)[k..] + Vacant(free)
  }

  lemma RebasedStart(sections: seq<Section>, index: nat, free: nat)
    requires index < |sections|
    ensures Rebased(sections, index, free, 0) == PackedSlots(sections, free)
  {
    var behind := sections[index + 1..];
    assert sections == sections[..index + 1] + behind;
    SlotsConcat(sections[..index + 1], behind, 0);
    FlatSplit(sections[..index + 1], index);
    assert sections[..index + 1][index + 1..] == [];
    assert sections[..index + 1][..index] == sections[..index];
  }

  lemma RebasedStep(sections: seq<Section>, index: nat, free: nat, k: nat)
    requires index < |sections| && k < |sections| - index - 1
    ensures var len, buffer := |sections[index].references|, Rebased(sections, index, free, k);
            var slot := buffer[index + 1 + k];
            && len <= slot.start
            && buffer[index + 1 + k := slot.(start := slot.start - len)] == Rebased(sections, index, free, k + 1)
  {
    var start, len, behind := |Flat(sections[..index])|, |sections[index].references|, sections[index + 1..];
    SlotRebased(behind, start + len, len, k);
    RebaseOne(Slots(sections[..index + 1], 0), Slots(behind, start + len), Slots(behind, start), Vacant(free), k);
  }

  lemma RebaseOne(a: seq<Slot>, before: seq<Slot>, after: seq<Slot>, rest: seq<Slot>, k: nat)
    requires k < |before| == |after|
    ensures var slots := a + after[..k] + before[k..] + rest;
            && slots[|a| + k] == before[k]
            && slots[|a| + k := after[k]] == a + after[..k + 1] + before[k + 1..] + rest
  {
  }

  /** A section's slot out of the whole buffer. */
  lemma SlotsRemoved(sections: seq<Section>, index: nat, free: nat)
    requires index < |sections|
    ensures var n := |sections|;
            var before := Rebased(sections, index, free, n - index - 1);
            Splice(before, index, before[index + 1..n])[n - 1 := EMPTY]
              == PackedSlots(Removed(sections, index), free + 1)
  {
    hide Flat;
    hide Slots;
    hide Splice;
    var a, behind := sections[..index], sections[index + 1..];
    var start, n := |Flat(a)|, |sections|;
    assert sections[..index + 1] == a + [sections[index]];
    SlotsConcat(a, [sections[index]], 0);
    SlotsConcat(a, behind, 0);
    var slots, slot, rest := Slots(a, 0), Slots([sections[index]], start)[0], Slots(behind, start);
    var stale := Slots(behind, start + |sections[index].references|);
    assert rest[..n - index - 1] == rest && stale[n - index - 1..] == [];
    assert Rebased(sections, index, free, n - index - 1) == slots + [slot] + rest + Vacant(free);
    SlotsClosed(slots, slot, rest, free);
  }

  /** A new section at the end of both buffers. */
  lemma PackedSnoc(sections: seq<Section>, s: Section, freeSlots: nat, freeReferences: nat)
    requires freeSlots > 0 && |s.references| <= freeReferences
    ensures PackedSlots(sections, freeSlots)[|sections| := Slot(s.stream, s.required, |Flat(sections)|, |s.references|)]
            == PackedSlots(sections + [s], freeSlots - 1)
    ensures Splice(PackedReferences(sections, freeReferences), |Flat(sections)|, s.references)
            == PackedReferences(sections + [s], freeReferences - |s.references|)
    ensures |Flat(sections + [s])| == |Flat(sections)| + |s.references|
  {
    FlatAround(sections, s, []);
    SlotsAround(sections, s, []);
    assert sections + [s] + [] == sections + [s];
  }

  /** Rust's `fill` on a subslice. */
  method Fill(target: array<u64>, from: nat, count: nat)
    requires from + count <= target.Length
    modifies target
    ensures target[..] == Splice(old(target[..]), from, Zeros(count))
  {
    forall i | from <= i < from + count {
      target[i] := 0;
    }
  }

  // ---- Sequences, one instruction at a time ----

  function Later(r: Applied, k: nat): Applied { r.(done := r.done + k) }

  lemma ParsedNext(bytes: seq<byte>, offset: nat, views: seq<InstructionView>)
    requires offset < |bytes| && ParseFrom(bytes, offset) == Ok(views)
    ensures views != [] && ParseInstruction(bytes[offset..]) == Ok(views[0])
    ensures offset + |views[0].bytes| <= |bytes|
    ensures ParseFrom(bytes, offset + |views[0].bytes|) == Ok(views[1..])
  {
  }

  lemma ExtentNone(views: seq<InstructionView>)
    ensures Extent(views[..0]) == 0
  {
  }

  lemma ExtentNext(views: seq<InstructionView>, k: nat)
    requires k < |views|
    ensures Extent(views[..k + 1]) == Extent(views[..k]) + |views[k].bytes|
  {
    assert views[..k + 1][..k] == views[..k];
  }

  lemma AppliedNext(state: Outstanding, views: seq<InstructionView>, insertCount: u64)
    requires views != []
    ensures var first := QpackAccounting.Apply(state, views[0].instruction, insertCount);
            && (first.Err? ==>
                  ApplyAll(state, Instructions(views), insertCount) == Applied(state, 0, Some(first.error)))
            && (first.Ok? ==> ApplyAll(state, Instructions(views), insertCount)
                              == Later(ApplyAll(first.value, Instructions(views[1..]), insertCount), 1))
  {
    assert Instructions(views)[1..] == Instructions(views[1..]);
  }

  lemma SequenceDone(bytes: seq<byte>, rest: seq<InstructionView>, state: Outstanding, insertCount: u64)
    requires ParseFrom(bytes, |bytes|) == Ok(rest)
    ensures rest == [] && ApplyAll(state, Instructions(rest), insertCount) == Applied(state, 0, None)
  {
  }

  // ---- The accounting ----

  class QpackEncoderState {
    const sections: array<Slot>
    const references: array<u64>
    const maximumBlocked: u64
    var sectionLen: nat
    var referenceLen: nat
    var known: u64
    ghost var outstanding: seq<Section>

    ghost function State(): Outstanding
      reads this
    {
      Outstanding(outstanding, known)
    }

    ghost function Bounds(): Limits
      reads this
    {
      Limits(sections.Length, references.Length, maximumBlocked)
    }

    /** Both buffers are exactly the packed form of the outstanding sections, then cleared slots. */
    ghost predicate PackedIn()
      reads this, sections, references
    {
      && sectionLen == |outstanding| <= sections.Length
      && referenceLen == |Flat(outstanding)| <= references.Length
      && sections[..] == PackedSlots(outstanding, sections.Length - sectionLen)
      && references[..] == PackedReferences(outstanding, references.Length - referenceLen)
    }

    ghost predicate Valid()
      reads this, sections, references
    {
      PackedIn() && Accounted(State(), Bounds())
    }

    constructor (sections: array<Slot>, references: array<u64>, maximumBlocked: u64)
      modifies sections, references
      ensures Valid() && State() == Outstanding([], 0)
      ensures this.sections == sections && this.references == references && this.maximumBlocked == maximumBlocked
    {
      this.sections := sections;
      this.references := references;
      this.maximumBlocked := maximumBlocked;
      this.sectionLen := 0;
      this.referenceLen := 0;
      this.known := 0;
      this.outstanding := [];
      new;
      forall i | 0 <= i < sections.Length {
        sections[i] := EMPTY;
      }
      forall i | 0 <= i < references.Length {
        references[i] := 0;
      }
      assert Blocked([], 0) == {};
    }

    /** Whether one of the first `end` sections of a stream waits beyond the Known Received Count. */
    method RisksBlocking(stream: u64, end: nat) returns (found: bool)
      requires PackedIn() && end <= sectionLen
      ensures found <==> stream in Blocked(outstanding[..end], known)
    {
      var k := 0;
      while k < end
        invariant k <= end
        invariant stream !in Blocked(outstanding[..k], known)
      {
        PackedSlotAt(outstanding, sections.Length - sectionLen, k);
        assert sections[k] == sections[..][k];
        BlockedSnoc(outstanding[..k], outstanding[k], known);
        assert outstanding[..k + 1] == outstanding[..k] + [outstanding[k]];
        if sections[k].required > known && sections[k].stream == stream {
          assert outstanding[k] in outstanding[..end];
          return true;
        }
        k := k + 1;
      }
      return false;
    }

    /** The nested loops count each stream once, at its first section that may block. */
    method BlockedStreamCount() returns (count: nat)
      requires PackedIn()
      ensures count == |Blocked(outstanding, known)|
    {
      count := 0;
      var index := 0;
      while index < sectionLen
        invariant index <= sectionLen
        invariant count == |Blocked(outstanding[..index], known)|
      {
        PackedSlotAt(outstanding, sections.Length - sectionLen, index);
        assert sections[index] == sections[..][index];
        BlockedGrows(outstanding, index, known);
        if sections[index].required > known {
          var seen := RisksBlocking(sections[index].stream, index);
          if !seen {
            count := count + 1;
          }
        }
        index := index + 1;
      }
      assert outstanding[..sectionLen] == outstanding;
    }

    /** The running maximum over the references. */
    static method LargestReference(references: seq<u64>) returns (largest: u64)
      requires references != []
      ensures largest == Largest(references)
    {
      largest := references[0];
      var k := 1;
      assert references[..1] == [references[0]];
      while k < |references|
        invariant 1 <= k <= |references|
        invariant largest == Largest(references[..k])
      {
        assert references[..k + 1][..k] == references[..k];
        if references[k] > largest {
          largest := references[k];
        }
        k := k + 1;
      }
      assert references[..k] == references;
    }

    /** Checks a registration and changes nothing. */
    method ReserveRegistration(stream: u64, required: u64, input: seq<u64>, insertCount: u64)
      returns (r: Result<Registration, RegistrationError>)
      requires Valid()
      ensures match CheckRegistration(State(), Bounds(), stream, required, input, insertCount)
              case None => r == Ok(Registration(stream, required, input, referenceLen))
              case Some(e) => r == Err(e)
    {
      if |input| == 0 {
        if required == 0 {
          return Ok(Registration(stream, required, input, referenceLen));
        }
        return Err(RequiredInsertCountMismatch(required, 0));
      }
      var largest := LargestReference(input);
      if largest + 1 >= U64_LIMIT {
        return Err(RequiredInsertCountOverflow(largest));
      }
      if required != largest + 1 {
        return Err(RequiredInsertCountMismatch(required, largest + 1));
      }
      if required > insertCount {
        return Err(RequiredInsertCountExceedsInsertCount(required, insertCount));
      }
      if sectionLen == sections.Length {
        return Err(SectionStorageExhausted(sections.Length));
      }
      var available := references.Length - referenceLen;
      if |input| > available {
        return Err(ReferenceStorageTooShort(|input|, available));
      }
      if required > known {
        assert outstanding[..sectionLen] == outstanding;
        var already := RisksBlocking(stream, sectionLen);
        if !already {
          var blocked := BlockedStreamCount();
          if blocked >= maximumBlocked {
            return Err(BlockedStreamsLimitExceeded(maximumBlocked));
          }
        }
      }
      return Ok(Registration(stream, required, input, referenceLen));
    }

    /** Whether a reservation was made on this state, which has not changed since. */
    ghost predicate Reserved(registration: Registration)
      reads this
    {
      && registration.start == referenceLen
      && Accounted(Registered(State(), registration.stream, registration.required, registration.references), Bounds())
    }

    /** Appends the reserved section to both buffers. */
    method Commit(registration: Registration)
      requires Valid() && Reserved(registration)
      modifies this, sections, references
      ensures Valid()
      ensures State() == Registered(old(State()), registration.stream, registration.required, registration.references)
    {
      hide Accounted;
      var Registration(stream, required, input, start) := registration;
      if |input| == 0 {
        return;
      }
      ghost var s := Section(stream, required, input);
      CommitFits(stream, required, input);
      PackedSnoc(outstanding, s, sections.Length - sectionLen, references.Length - referenceLen);
      hide PackedSlots;
      hide PackedReferences;
      hide Flat;
      hide Splice;
      CopyFromSlice(references, start, input);
      Put(sections, sectionLen, Slot(stream, required, start, |input|));
      referenceLen := referenceLen + |input|;
      sectionLen := sectionLen + 1;
      outstanding := outstanding + [s];
    }

    lemma CommitFits(stream: u64, required: u64, input: seq<u64>)
      requires input != [] && Accounted(Registered(State(), stream, required, input), Bounds())
      ensures |outstanding| < sections.Length && |Flat(outstanding)| + |input| <= references.Length
    {
      var s := Section(stream, required, input);
      FlatConcat(outstanding, [s]);
      assert Flat([s]) == input + Flat([]) == input;
    }

    method Register(stream: u64, required: u64, input: seq<u64>, insertCount: u64)
      returns (r: Result<(), RegistrationError>)
      requires Valid()
      modifies this, sections, references
      ensures Valid()
      ensures match CheckRegistration(old(State()), Bounds(), stream, required, input, insertCount)
              case None => r == Ok(()) && State() == Registered(old(State()), stream, required, input)
              case Some(e) => r == Err(e) && State() == old(State())
                              && sections[..] == old(sections[..]) && references[..] == old(references[..])
    {
      var registration := ReserveRegistration(stream, required, input, insertCount);
      if registration.Err? {
        return Err(registration.error);
      }
      RegistrationExact(State(), Bounds(), stream, required, input, insertCount);
      Commit(registration.value);
      return Ok(());
    }

    /** Moves the starts of the slots behind a removed section down over its references. */
    method Rebase(index: nat, distance: nat)
      requires index < sectionLen == |outstanding| <= sections.Length && distance == |outstanding[index].references|
      requires sections[..] == PackedSlots(outstanding, sections.Length - sectionLen)
      modifies sections
      ensures sections[..] == Rebased(outstanding, index, sections.Length - sectionLen, sectionLen - index - 1)
    {
      ghost var free := sections.Length - sectionLen;
      RebasedStart(outstanding, index, free);
      hide PackedSlots;
      hide Rebased;
      for k := index + 1 to sectionLen
        invariant sections[..] == Rebased(outstanding, index, free, k - index - 1)
      {
        RebasedStep(outstanding, index, free, k - index - 1);
        assert sections[k] == sections[..][k];
        Put(sections, k, sections[k].(start := sections[k].start - distance));
      }
    }

    /** Takes one section out of both buffers. */
    method RemoveSection(index: nat)
      requires Valid() && index < sectionLen
      modifies this`sectionLen, this`referenceLen, this`outstanding, sections, references
      ensures Valid() && outstanding == Removed(old(outstanding), index)
    {
      hide Accounted;
      hide PackedSlots;
      hide PackedReferences;
      hide Rebased;
      hide Splice;
      hide Flat;
      ghost var free, freeReferences := sections.Length - sectionLen, references.Length - referenceLen;
      PackedSlotAt(outstanding, free, index);
      FlatRemoved(outstanding, index);
      ReferencesRemoved(outstanding, index, freeReferences);
      SlotsRemoved(outstanding, index, free);
      RemovalAccounted(index);
      var removed := sections[index];
      assert removed == sections[..][index];
      CopyWithin(references, removed.start + removed.len, referenceLen, removed.start);
      Rebase(index, removed.len);
      CopyWithin(sections, index + 1, sectionLen, index);
      sectionLen := sectionLen - 1;
      referenceLen := referenceLen - removed.len;
      Put(sections, sectionLen, EMPTY);
      Fill(references, referenceLen, removed.len);
      outstanding := Removed(outstanding, index);
    }

    lemma RemovalAccounted(index: nat)
      requires Accounted(State(), Bounds()) && index < |outstanding|
      ensures Accounted(Outstanding(Removed(outstanding, index), known), Bounds())
    {
      BlockedShrinks(outstanding, Removed(outstanding, index), known, known);
      FlatRemoved(outstanding, index);
    }

    /** Applies one instruction of the decoder, or leaves everything as it was. */
    method Apply(i: Instruction, insertCount: u64) returns (r: Result<(), ApplyError>)
      requires Valid()
      modifies this, sections, references
      ensures Valid()
      ensures match QpackAccounting.Apply(old(State()), i, insertCount)
              case Ok(next) => r == Ok(()) && State() == next
              case Err(e) => r == Err(e) && State() == old(State())
                             && sections[..] == old(sections[..]) && references[..] == old(references[..])
    {
      ApplyKeepsAccounted(State(), Bounds(), i, insertCount);
      match i
      case SectionAcknowledgment(stream) =>
        var index := Oldest(stream);
        if index == sectionLen {
          return Err(AcknowledgmentWithoutOutstandingReferences(stream));
        }
        Acknowledge(stream, index);
        return Ok(());
      case StreamCancellation(stream) =>
        Cancel(stream);
        return Ok(());
      case InsertCountIncrement(increment) =>
        if increment == 0 {
          return Err(IncrementZero);
        }
        if known + increment >= U64_LIMIT {
          return Err(IncrementExceedsInsertCount(known, increment, insertCount));
        }
        if known + increment > insertCount {
          return Err(IncrementExceedsInsertCount(known, increment, insertCount));
        }
        known := known + increment;
        return Ok(());
    }

    /** The slot of the oldest section of a stream. */
    method Oldest(stream: u64) returns (index: nat)
      requires Valid()
      ensures index == Position(outstanding, stream)
    {
      index := 0;
      while index < sectionLen
        invariant index <= sectionLen
        invariant Position(outstanding, stream) == index + Position(outstanding[index..], stream)
      {
        PackedSlotAt(outstanding, sections.Length - sectionLen, index);
        assert sections[index] == sections[..][index];
        if sections[index].stream == stream {
          return;
        }
        assert outstanding[index..][1..] == outstanding[index + 1..];
        index := index + 1;
      }
    }

    method Acknowledge(stream: u64, index: nat)
      requires Valid() && index == Position(outstanding, stream) < sectionLen
      modifies this, sections, references
      ensures Valid()
      ensures State() == Outstanding(Removed(old(outstanding), index),
                                     Max(old(known), old(outstanding)[index].required))
    {
      ghost var before := State();
      PackedSlotAt(outstanding, sections.Length - sectionLen, index);
      assert sections[index] == sections[..][index];
      var raised := Max(known, sections[index].required);
      RemoveSection(index);
      BlockedShrinks(outstanding, outstanding, known, raised);
      known := raised;
    }

    /** Removes every section of a stream, one at a time. */
    method Cancel(stream: u64)
      requires Valid()
      modifies this`sectionLen, this`referenceLen, this`outstanding, sections, references
      ensures Valid() && outstanding == Without(old(outstanding), stream)
    {
      hide Accounted;
      hide Flat;
      hide Slots;
      hide Without;
      var index := 0;
      while index < sectionLen
        invariant Valid() && index <= sectionLen
        invariant Without(outstanding, stream) == Without(old(outstanding), stream)
        invariant forall k :: 0 <= k < index ==> outstanding[k].stream != stream
        decreases sectionLen - index
      {
        PackedSlotAt(outstanding, sections.Length - sectionLen, index);
        assert sections[index] == sections[..][index];
        if sections[index].stream == stream {
          WithoutRemoved(outstanding, index);
          RemoveSection(index);
        } else {
          index := index + 1;
        }
      }
      WithoutNone(outstanding, stream);
    }

    /**
     * Applies a whole sequence: nothing if it is malformed, otherwise every instruction up to the
     * first that fails. Parsing each instruction again after the sequence was validated cannot fail.
     */
    method ApplySequence(bytes: seq<byte>, insertCount: u64) returns (r: Result<(), SequenceApplyError>)
      requires Valid()
      modifies this, sections, references
      ensures Valid()
      ensures match ParseSequence(bytes)
              case Err(e) =>
                && r == Err(SequenceMalformed(e)) && State() == old(State())
                && sections[..] == old(sections[..]) && references[..] == old(references[..])
              case Ok(views) =>
                var all := ApplyAll(old(State()), Instructions(views), insertCount);
                && State() == all.state
                && match all.failure
                   case None => r == Ok(())
                   case Some(e) => r == Err(ApplyFailed(Extent(views[..all.done]), e))
    {
      var valid := ValidateSequence(bytes);
      if valid.Err? {
        return Err(SequenceMalformed(valid.error));
      }
      r := ApplyValidated(bytes, insertCount, ParseSequence(bytes).value);
    }

    /** The loop over a sequence that has been validated. */
    method ApplyValidated(bytes: seq<byte>, insertCount: u64, ghost views: seq<InstructionView>)
      returns (r: Result<(), SequenceApplyError>)
      requires Valid() && ParseSequence(bytes) == Ok(views)
      modifies this, sections, references
      ensures Valid()
      ensures var all := ApplyAll(old(State()), Instructions(views), insertCount);
              && State() == all.state
              && (all.failure == None ==> r == Ok(()))
              && (all.failure.Some? ==> r == Err(ApplyFailed(Extent(views[..all.done]), all.failure.value)))
    {
      hide ParseFrom;
      hide ParseInstruction;
      hide Instructions;
      hide ApplyAll;
      hide Extent;
      hide Valid;
      hide QpackAccounting.Apply;
      ghost var rest, k := views, 0;
      ghost var all := ApplyAll(State(), Instructions(views), insertCount);
      var offset := 0;
      ExtentNone(views);
      while offset < |bytes|
        invariant Valid() && offset <= |bytes| && k <= |views| && rest == views[k..]
        invariant ParseFrom(bytes, offset) == Ok(rest) && offset == Extent(views[..k])
        invariant all == Later(ApplyAll(State(), Instructions(rest), insertCount), k)
        decreases |bytes| - offset
      {
        ParsedNext(bytes, offset, rest);
        ExtentNext(views, k);
        AppliedNext(State(), rest, insertCount);
        var view := ParseInstruction(bytes[offset..]);
        assert view == Ok(rest[0]);
        var applied := Apply(view.value.instruction, insertCount);
        if applied.Err? {
          return Err(ApplyFailed(offset, applied.error));
        }
        offset := offset + |view.value.bytes|;
        k := k + 1;
        rest := rest[1..];
      }
      SequenceDone(bytes, rest, State(), insertCount);
      return Ok(());
    }

    /** Scans the retained reference occurrences for an entry. */
    method IsEvictable(index: u64) returns (evictable: bool)
      requires Valid()
      ensures evictable <==> Evictable(State(), index)
      ensures evictable <==> known > index && forall s :: s in outstanding ==> index !in s.references
    {
      FlatMember(outstanding, index);
      if known <= index {
        return false;
      }
      var k := 0;
      while k < referenceLen
        invariant k <= referenceLen
        invariant index !in Flat(outstanding)[..k]
      {
        assert references[k] == references[..][k] == Flat(outstanding)[k];
        if references[k] == index {
          return false;
        }
        k := k + 1;
      }
      assert Flat(outstanding)[..k] == Flat(outstanding);
      return true;
    }
  }
}
