/**
 * What an encoder owes its outstanding field sections, on values: the sections it has sent
 * with dynamic references, oldest first, and the inserts it knows the decoder has received.
 */
module QpackAccounting {
  import opened Machine
  import opened QpackInstructions

  datatype Section = Section(stream: u64, required: u64, references: seq<u64>)

  datatype Outstanding = Outstanding(sections: seq<Section>, known: u64)

  datatype Limits = Limits(sectionSlots: nat, referenceSlots: nat, maximumBlocked: u64)

  datatype RegistrationError =
    | RequiredInsertCountMismatch(required: u64, expected: u64)
    | RequiredInsertCountOverflow(largest: u64)
    | RequiredInsertCountExceedsInsertCount(required: u64, insertCount: u64)
    | SectionStorageExhausted(capacity: nat)
    | ReferenceStorageTooShort(needed: nat, available: int)
    | BlockedStreamsLimitExceeded(maximum: u64)

  datatype ApplyError =
    | AcknowledgmentWithoutOutstandingReferences(stream: u64)
    | IncrementZero
    | IncrementExceedsInsertCount(known: u64, increment: u64, insertCount: u64)

  // ---- Sections ----

  function Largest(references: seq<u64>): (largest: u64)
    requires references != []
    ensures largest in references && forall r :: r in references ==> r <= largest
    decreases |references|
  {
    var n := |references| - 1;
    if n == 0 then references[0]
    else
      assert references == references[..n] + [references[n]];
      Max(Largest(references[..n]), references[n])
  }

  /** Every reference occurrence, in registration order. */
  function Flat(sections: seq<Section>): (references: seq<u64>) {
    if sections == [] then [] else sections[0].references + Flat(sections[1..])
  }

  lemma {:induction false} FlatConcat(a: seq<Section>, b: seq<Section>)
    ensures Flat(a + b) == Flat(a) + Flat(b)
    decreases |a|
  {
    if a == [] {
      assert a + b == b;
    } else {
      assert (a + b)[1..] == a[1..] + b;
      FlatConcat(a[1..], b);
    }
  }

  lemma {:induction false} FlatMember(sections: seq<Section>, r: u64)
    ensures r in Flat(sections) <==> exists s :: s in sections && r in s.references
    decreases |sections|
  {
    if sections != [] {
      FlatMember(sections[1..], r);
      assert sections == [sections[0]] + sections[1..];
    }
  }

  /** The streams that wait, or may wait, for an insert the decoder has not confirmed. */
  function Blocked(sections: seq<Section>, known: u64): set<u64> {
    set s | s in sections && s.required > known :: s.stream
  }

  lemma BlockedSnoc(sections: seq<Section>, s: Section, known: u64)
    ensures Blocked(sections + [s], known) == Blocked(sections, known) + if s.required > known then {s.stream} else {}
  {
    var all, before := Blocked(sections + [s], known), Blocked(sections, known);
    forall stream | stream in all
      ensures stream in before || (s.required > known && stream == s.stream)
    {
      var t :| t in sections + [s] && t.required > known && t.stream == stream;
    }
    forall stream | stream in before
      ensures stream in all
    {
      var t :| t in sections && t.required > known && t.stream == stream;
      assert t in sections + [s];
    }
    assert s in sections + [s];
  }

  /** A section adds a stream to the blocked ones exactly when no earlier one has. */
  lemma BlockedGrows(sections: seq<Section>, k: nat, known: u64)
    requires k < |sections|
    ensures |Blocked(sections[..k + 1], known)| == |Blocked(sections[..k], known)|
            + if sections[k].required > known && sections[k].stream !in Blocked(sections[..k], known) then 1 else 0
  {
    var before, s := Blocked(sections[..k], known), sections[k];
    BlockedSnoc(sections[..k], s, known);
    assert sections[..k + 1] == sections[..k] + [s];
    if s.stream in before {
      assert before + {s.stream} == before;
    }
  }

  /** Fewer sections and more confirmed inserts block no further streams. */
  lemma BlockedShrinks(before: seq<Section>, after: seq<Section>, known: u64, later: u64)
    requires known <= later && forall s :: s in after ==> s in before
    ensures |Blocked(after, later)| <= |Blocked(before, known)|
  {
    var a, b := Blocked(after, later), Blocked(before, known);
    forall stream | stream in a
      ensures stream in b
    {
      var t :| t in after && t.required > later && t.stream == stream;
      assert t in before;
    }
    SubsetSize(a, b);
  }

  lemma {:induction false} SubsetSize<T>(a: set<T>, b: set<T>)
    requires a <= b
    ensures |a| <= |b|
    decreases |a|
  {
    if a != {} {
      var x :| x in a;
      SubsetSize(a - {x}, b - {x});
    }
  }

  // ---- Registration ----

  /** The checks of a registration, in the order they are made. */
  function CheckRegistration(state: Outstanding, limits: Limits, stream: u64, required: u64, references: seq<u64>,
                             insertCount: u64): Option<RegistrationError>
  {
    if references == [] then
      if required == 0 then None else Some(RequiredInsertCountMismatch(required, 0))
    else if Largest(references) + 1 >= U64_LIMIT then Some(RequiredInsertCountOverflow(Largest(references)))
    else if required != Largest(references) + 1 then
      Some(RequiredInsertCountMismatch(required, Largest(references) + 1))
    else if required > insertCount then Some(RequiredInsertCountExceedsInsertCount(required, insertCount))
    else if |state.sections| >= limits.sectionSlots then Some(SectionStorageExhausted(limits.sectionSlots))
    else if |Flat(state.sections)| + |references| > limits.referenceSlots then
      Some(ReferenceStorageTooShort(|references|, limits.referenceSlots - |Flat(state.sections)|))
    else if
      && required > state.known
      && stream !in Blocked(state.sections, state.known)
      && |Blocked(state.sections, state.known)| >= limits.maximumBlocked
    then Some(BlockedStreamsLimitExceeded(limits.maximumBlocked))
    else None
  }

  function Registered(state: Outstanding, stream: u64, required: u64, references: seq<u64>): Outstanding {
    if references == [] then state
    else state.(sections := state.sections + [Section(stream, required, references)])
  }

  /** A section that has references, and a count that is one more than the largest of them. */
  predicate WellFormed(s: Section) {
    s.references != [] && s.required == Largest(s.references) + 1
  }

  /** What every reachable accounting satisfies. */
  predicate Accounted(state: Outstanding, limits: Limits) {
    && (forall s :: s in state.sections ==> WellFormed(s))
    && |state.sections| <= limits.sectionSlots
    && |Flat(state.sections)| <= limits.referenceSlots
    && |Blocked(state.sections, state.known)| <= limits.maximumBlocked
  }

  /** The blocked-stream check looks before the section is added; what it decides is the count after. */
  lemma BlockedCheckExact(state: Outstanding, s: Section, maximum: nat)
    requires |Blocked(state.sections, state.known)| <= maximum
    ensures |Blocked(state.sections + [s], state.known)| <= maximum <==>
            !(&& s.required > state.known
              && s.stream !in Blocked(state.sections, state.known)
              && |Blocked(state.sections, state.known)| >= maximum)
  {
    BlockedSnoc(state.sections, s, state.known);
    var before := Blocked(state.sections, state.known);
    if s.required > state.known && s.stream in before {
      assert before + {s.stream} == before;
    }
  }

  /**
   * A section is registered exactly when it has no references and a count of zero, or its
   * count is one more than its largest reference, that entry has been inserted, and the
   * accounting still satisfies every limit once it has been added.
   */
  lemma RegistrationExact(state: Outstanding, limits: Limits, stream: u64, required: u64, references: seq<u64>,
                          insertCount: u64)
    requires Accounted(state, limits)
    ensures CheckRegistration(state, limits, stream, required, references, insertCount) == None <==>
            && (references == [] ==> required == 0)
            && (references != [] ==> required == Largest(references) + 1 <= insertCount)
            && Accounted(Registered(state, stream, required, references), limits)
  {
    if references != [] {
      var s := Section(stream, required, references);
      FlatConcat(state.sections, [s]);
      assert Flat([s]) == references + Flat([]) == references;
      BlockedCheckExact(state, s, limits.maximumBlocked);
      assert s in state.sections + [s];
    }
  }

  /** Every refusal of a registration names a fault that is there. */
  lemma RegistrationRefused(state: Outstanding, limits: Limits, stream: u64, required: u64, references: seq<u64>,
                            insertCount: u64)
    ensures var waiting := Blocked(state.sections, state.known);
            match CheckRegistration(state, limits, stream, required, references, insertCount)
            case None => true
            case Some(RequiredInsertCountMismatch(r, expected)) =>
              && r == required != expected
              && if references == [] then expected == 0
                 else expected - 1 in references && forall x :: x in references ==> x < expected
            case Some(RequiredInsertCountOverflow(largest)) => largest in references && largest == 0xFFFF_FFFF_FFFF_FFFF
            case Some(RequiredInsertCountExceedsInsertCount(r, n)) => r == required > n == insertCount
            case Some(SectionStorageExhausted(n)) => n == limits.sectionSlots <= |state.sections|
            case Some(ReferenceStorageTooShort(needed, available)) =>
              needed == |references| > available == limits.referenceSlots - |Flat(state.sections)|
            case Some(BlockedStreamsLimitExceeded(n)) =>
              n == limits.maximumBlocked <= |waiting| && required > state.known && stream !in waiting
  {
  }

  /** The streams that wait are those with a section that requires more than is confirmed. */
  lemma BlockedMeaning(sections: seq<Section>, known: u64, stream: u64)
    ensures stream in Blocked(sections, known) <==>
            exists s :: s in sections && s.stream == stream && s.required > known
  {
  }

  // ---- Decoder instructions ----

  /** The index of the oldest section of a stream, or the number of sections. */
  function Position(sections: seq<Section>, stream: u64): (p: nat)
    ensures p <= |sections|
    ensures forall k :: 0 <= k < p ==> sections[k].stream != stream
    ensures p < |sections| ==> sections[p].stream == stream
  {
    if sections == [] || sections[0].stream == stream then 0 else 1 + Position(sections[1..], stream)
  }

  function Removed(sections: seq<Section>, index: nat): (after: seq<Section>)
    requires index < |sections|
    ensures forall s :: s in after ==> s in sections
  {
    sections[..index] + sections[index + 1..]
  }

  function Without(sections: seq<Section>, stream: u64): (after: seq<Section>)
    ensures forall s :: s in after <==> s in sections && s.stream != stream
  {
    if sections == [] then []
    else if sections[0].stream == stream then Without(sections[1..], stream)
    else [sections[0]] + Without(sections[1..], stream)
  }

  function Apply(state: Outstanding, i: Instruction, insertCount: u64): Result<Outstanding, ApplyError> {
    match i
    case SectionAcknowledgment(stream) =>
      var p := Position(state.sections, stream);
      if p == |state.sections| then Err(AcknowledgmentWithoutOutstandingReferences(stream))
      else Ok(Outstanding(Removed(state.sections, p), Max(state.known, state.sections[p].required)))
    case StreamCancellation(stream) =>
      Ok(state.(sections := Without(state.sections, stream)))
    case InsertCountIncrement(increment) =>
      if increment == 0 then Err(IncrementZero)
      else if state.known + increment >= U64_LIMIT || state.known + increment > insertCount then
        Err(IncrementExceedsInsertCount(state.known, increment, insertCount))
      else Ok(state.(known := state.known + increment))
  }

  /**
   * What one accepted instruction does. An acknowledgment takes away the oldest section of its stream and confirms
   * what that section required; a cancellation takes away every section of its stream and confirms nothing; an
   * increment confirms that many inserts more, never beyond those that were made.
   */
  lemma ApplyMeaning(state: Outstanding, i: Instruction, insertCount: u64)
    requires Apply(state, i, insertCount).Ok?
    ensures var after := Apply(state, i, insertCount).value;
            match i
            case SectionAcknowledgment(stream) =>
              exists a, s, b ::
                && state.sections == a + [s] + b && after.sections == a + b
                && s.stream == stream && (forall t :: t in a ==> t.stream != stream)
                && after.known == if s.required > state.known then s.required else state.known
            case StreamCancellation(stream) =>
              && after.known == state.known
              && forall s :: s in after.sections <==> s in state.sections && s.stream != stream
            case InsertCountIncrement(increment) =>
              && increment > 0 && after.sections == state.sections
              && after.known == state.known + increment <= insertCount
  {
    match i
    case SectionAcknowledgment(stream) =>
      var p := Position(state.sections, stream);
      var a, s, b := state.sections[..p], state.sections[p], state.sections[p + 1..];
      assert state.sections == a + [s] + b;
      assert forall t :: t in a ==> t.stream != stream;
    case _ =>
  }

  /** Why an instruction is refused. */
  lemma ApplyRefused(state: Outstanding, i: Instruction, insertCount: u64)
    ensures Apply(state, i, insertCount) ==
            Err(AcknowledgmentWithoutOutstandingReferences(i.Operand())) <==>
              i.SectionAcknowledgment? && forall s :: s in state.sections ==> s.stream != i.stream
    ensures Apply(state, i, insertCount) == Err(IncrementZero) <==> i == InsertCountIncrement(0)
    ensures Apply(state, i, insertCount) == Err(IncrementExceedsInsertCount(state.known, i.Operand(), insertCount)) <==>
              i.InsertCountIncrement? && i.increment > 0 && state.known + i.increment > insertCount
    ensures i.StreamCancellation? ==> Apply(state, i, insertCount).Ok?
  {
    if i.SectionAcknowledgment? {
      var p := Position(state.sections, i.stream);
      if p < |state.sections| {
        assert state.sections[p] in state.sections;
      }
    }
  }

  /** What a sequence does: the instructions before the first that fails, and that failure. */
  datatype Applied = Applied(state: Outstanding, done: nat, failure: Option<ApplyError>)

  function ApplyAll(state: Outstanding, instructions: seq<Instruction>, insertCount: u64): (r: Applied)
    ensures r.done <= |instructions| && (r.failure == None <==> r.done == |instructions|)
    decreases |instructions|
  {
    if instructions == [] then Applied(state, 0, None)
    else
      match Apply(state, instructions[0], insertCount)
      case Err(e) => Applied(state, 0, Some(e))
      case Ok(next) =>
        var rest := ApplyAll(next, instructions[1..], insertCount);
        rest.(done := rest.done + 1)
  }

  lemma {:induction false} FlatRemoved(sections: seq<Section>, index: nat)
    requires index < |sections|
    ensures |Flat(Removed(sections, index))| + |sections[index].references| == |Flat(sections)|
  {
    var a, s, b := sections[..index], sections[index], sections[index + 1..];
    assert sections == a + ([s] + b);
    FlatConcat(a, [s] + b);
    FlatConcat(a, b);
    assert ([s] + b)[1..] == b;
  }

  lemma {:induction false} WithoutShrinks(sections: seq<Section>, stream: u64)
    ensures |Without(sections, stream)| <= |sections| && |Flat(Without(sections, stream))| <= |Flat(sections)|
    decreases |sections|
  {
    if sections != [] {
      WithoutShrinks(sections[1..], stream);
      var kept := Without(sections[1..], stream);
      assert ([sections[0]] + kept)[1..] == kept;
    }
  }

  /** Every instruction that is accepted keeps the accounting within its limits. */
  lemma ApplyKeepsAccounted(state: Outstanding, limits: Limits, i: Instruction, insertCount: u64)
    requires Accounted(state, limits)
    ensures var r := Apply(state, i, insertCount);
            r.Ok? ==> Accounted(r.value, limits) && state.known <= r.value.known
  {
    var r := Apply(state, i, insertCount);
    if r.Ok? {
      BlockedShrinks(state.sections, r.value.sections, state.known, r.value.known);
      match i
      case SectionAcknowledgment(stream) =>
        FlatRemoved(state.sections, Position(state.sections, stream));
      case StreamCancellation(stream) =>
        WithoutShrinks(state.sections, stream);
      case InsertCountIncrement(_) =>
    }
  }

  lemma {:induction false} ApplyAllKeepsAccounted(state: Outstanding, limits: Limits, instructions: seq<Instruction>,
                                                  insertCount: u64)
    requires Accounted(state, limits)
    ensures var r := ApplyAll(state, instructions, insertCount).state;
            Accounted(r, limits) && state.known <= r.known
    decreases |instructions|
  {
    if instructions != [] {
      ApplyKeepsAccounted(state, limits, instructions[0], insertCount);
      var next := Apply(state, instructions[0], insertCount);
      if next.Ok? {
        ApplyAllKeepsAccounted(next.value, limits, instructions[1..], insertCount);
      }
    }
  }

  /** Removing a stream's sections one at a time, as a cancellation does, leaves the others in order. */
  lemma {:induction false} WithoutRemoved(sections: seq<Section>, index: nat)
    requires index < |sections|
    ensures Without(Removed(sections, index), sections[index].stream) == Without(sections, sections[index].stream)
    decreases |sections|
  {
    var after := Removed(sections, index);
    if index == 0 {
      assert after == sections[1..];
    } else {
      assert after[1..] == Removed(sections[1..], index - 1);
      WithoutRemoved(sections[1..], index - 1);
    }
  }

  lemma {:induction false} WithoutNone(sections: seq<Section>, stream: u64)
    requires forall k :: 0 <= k < |sections| ==> sections[k].stream != stream
    ensures Without(sections, stream) == sections
    decreases |sections|
  {
    if sections != [] {
      WithoutNone(sections[1..], stream);
    }
  }

  // ---- Eviction ----

  /** An entry may go once the decoder is known to have it and no outstanding section names it. */
  predicate Evictable(state: Outstanding, index: u64) {
    state.known > index && index !in Flat(state.sections)
  }

  /** An entry may go exactly when it is confirmed and no outstanding section names it. */
  lemma EvictableExact(state: Outstanding, index: u64)
    ensures Evictable(state, index) <==>
            index < state.known && forall s :: s in state.sections ==> index !in s.references
  {
    FlatMember(state.sections, index);
  }

  /** Accepted feedback never takes back a permission to evict. */
  lemma EvictableStays(state: Outstanding, i: Instruction, insertCount: u64, index: u64)
    requires Evictable(state, index) && Apply(state, i, insertCount).Ok?
    ensures Evictable(Apply(state, i, insertCount).value, index)
  {
    var after := Apply(state, i, insertCount).value;
    FlatMember(state.sections, index);
    FlatMember(after.sections, index);
    assert forall s :: s in after.sections ==> s in state.sections;
  }
}
