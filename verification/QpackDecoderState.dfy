/** RFC 9204 section 4.4 feedback: what a decoder tells the encoder, and what it counts as told. */
module QpackDecoderState {
  import opened Machine
  import opened QpackInstructions

  /** What decoding a field section reports about it. */
  datatype DecodedSection = DecodedSection(required: u64, containsDynamicReferences: bool)

  datatype FeedbackError =
    | InsertCountRegression(known: u64, insertCount: u64)
    | InstructionBuild(error: InstructionBuildError)

  /** An instruction to publish, if any, and the Known Received Count once it is. */
  datatype Feedback = Feedback(instruction: Option<Instruction>, known: u64)

  function Acknowledged(known: u64, stream: u64, section: DecodedSection): Feedback {
    if section.containsDynamicReferences then
      Feedback(Some(SectionAcknowledgment(stream)), Max(known, section.required))
    else Feedback(None, known)
  }

  function Cancelled(known: u64, stream: u64): Feedback {
    Feedback(Some(StreamCancellation(stream)), known)
  }

  /** One increment carries at most the largest QPACK integer. */
  function Incremented(known: u64, insertCount: u64): Feedback
    requires known <= insertCount
  {
    if known == insertCount then Feedback(None, known)
    else
      var increment := Min(insertCount - known, QPACK_INTEGER_MAX);
      Feedback(Some(InsertCountIncrement(increment)), known + increment)
  }

  /** The increments that repeated calls publish until nothing is pending. */
  function Increments(known: u64, insertCount: u64): (instructions: seq<Instruction>)
    requires known <= insertCount
    decreases insertCount - known
  {
    var f := Incremented(known, insertCount);
    if f.instruction == None then [] else [f.instruction.value] + Increments(f.known, insertCount)
  }

  function Total(instructions: seq<Instruction>): nat {
    if instructions == [] then 0 else instructions[0].Operand() + Total(instructions[1..])
  }

  /** However far behind the encoder is, few representable increments bring it up to date exactly. */
  lemma {:induction false} IncrementsReach(known: u64, insertCount: u64, quota: nat)
    requires known <= insertCount && insertCount - known <= quota * QPACK_INTEGER_MAX
    ensures var instructions := Increments(known, insertCount);
            && Total(instructions) == insertCount - known && |instructions| <= quota
            && AllRepresentable(instructions)
    decreases quota
  {
    var f := Incremented(known, insertCount);
    if f.instruction != None {
      var rest := Increments(f.known, insertCount);
      assert ([f.instruction.value] + rest)[1..] == rest;
      IncrementsReach(f.known, insertCount, quota - 1);
    }
  }

  /** No encoder is ever more than five increments behind. */
  lemma FiveIncrementsSuffice(known: u64, insertCount: u64)
    requires known <= insertCount
    ensures |Increments(known, insertCount)| <= 5 && Total(Increments(known, insertCount)) == insertCount - known
  {
    IncrementsReach(known, insertCount, 5);
  }

  /** What emitting feedback does: all of it, or on a failed build nothing. */
  predicate Emitted(known: u64, before: seq<byte>, f: Feedback, r: Result<Option<InstructionView>, FeedbackError>,
                    after: u64, octets: seq<byte>)
  {
    match f.instruction
    case None => r == Ok(None) && after == known && octets == before
    case Some(i) =>
      if !i.Representable() then
        r == Err(InstructionBuild(OperandTooLarge(i.Operand()))) && after == known && octets == before
      else if |before| < |i.Octets()| then
        && r == Err(InstructionBuild(InstructionBufferTooShort(|i.Octets()|, |before|)))
        && after == known && octets == before
      else
        && r == Ok(Some(InstructionView(i, i.Octets())))
        && after == f.known && octets == Splice(before, 0, i.Octets())
  }

  /** A peer that reads the octets finds this instruction at their front, and the caller is told so. */
  predicate Published(view: Option<InstructionView>, i: Instruction, octets: seq<byte>) {
    view.Some? && view.value.instruction == i && ParseInstruction(octets) == Ok(view.value)
  }

  lemma SplicedIsPublished(before: seq<byte>, i: Instruction)
    ensures i.Representable() && |i.Octets()| <= |before| ==>
              Published(Some(InstructionView(i, i.Octets())), i, Splice(before, 0, i.Octets()))
  {
    hide ParseInstruction;
    if i.Representable() && |i.Octets()| <= |before| {
      assert Splice(before, 0, i.Octets()) == i.Octets() + before[|i.Octets()|..];
      InstructionRoundTrip(i, before[|i.Octets()|..]);
    }
  }

  class QpackDecoderState {
    var known: u64

    constructor ()
      ensures known == 0
    {
      known := 0;
    }

    /**
     * Acknowledges a decoded section, if it used the dynamic table: then the count is brought up to what the section
     * required, and a peer reads the acknowledgment of this stream from the destination.
     */
    method AcknowledgeFieldSection(destination: array<byte>, stream: u64, section: DecodedSection)
      returns (r: Result<Option<InstructionView>, FeedbackError>)
      modifies this, destination
      ensures Emitted(old(known), old(destination[..]), Acknowledged(old(known), stream, section), r, known,
              destination[..])
      ensures !section.containsDynamicReferences ==>
                r == Ok(None) && known == old(known) && destination[..] == old(destination[..])
      ensures section.containsDynamicReferences && r.Ok? ==>
                && Published(r.value, SectionAcknowledgment(stream), destination[..])
                && known == if section.required > old(known) then section.required else old(known)
      ensures r.Err? ==> known == old(known) && destination[..] == old(destination[..])
    {
      if !section.containsDynamicReferences {
        return Ok(None);
      }
      var built := BuildInstruction(destination, SectionAcknowledgment(stream));
      SplicedIsPublished(old(destination[..]), SectionAcknowledgment(stream));
      if built.Err? {
        return Err(InstructionBuild(built.error));
      }
      known := Max(known, section.required);
      return Ok(Some(built.value));
    }

    /** Reports a stream that is abandoned. It never moves the Known Received Count. */
    method CancelStream(destination: array<byte>, stream: u64)
      returns (r: Result<Option<InstructionView>, FeedbackError>)
      modifies this, destination
      ensures Emitted(old(known), old(destination[..]), Cancelled(old(known), stream), r, known, destination[..])
      ensures known == old(known)
      ensures r.Ok? ==> Published(r.value, StreamCancellation(stream), destination[..])
      ensures r.Err? ==> destination[..] == old(destination[..])
    {
      var built := BuildInstruction(destination, StreamCancellation(stream));
      SplicedIsPublished(old(destination[..]), StreamCancellation(stream));
      if built.Err? {
        return Err(InstructionBuild(built.error));
      }
      return Ok(Some(built.value));
    }

    /** Reports pending inserts. Advancing the count cannot overflow: it stays within the insert count. */
    method EmitInsertCountIncrement(destination: array<byte>, insertCount: u64)
      returns (r: Result<Option<InstructionView>, FeedbackError>)
      modifies this, destination
      ensures insertCount < old(known) ==>
                r == Err(InsertCountRegression(old(known), insertCount))
                && known == old(known) && destination[..] == old(destination[..])
      ensures old(known) <= insertCount ==>
                && known <= insertCount
                && Emitted(old(known), old(destination[..]), Incremented(old(known), insertCount), r, known,
                   destination[..])
      ensures r.Ok? && old(known) < insertCount ==>
                known > old(known) && Published(r.value, InsertCountIncrement(known - old(known)), destination[..])
      ensures r == Ok(None) <==> old(known) == insertCount
      ensures r.Err? || r == Ok(None) ==> known == old(known) && destination[..] == old(destination[..])
    {
      if insertCount == known {
        return Ok(None);
      }
      if insertCount < known {
        return Err(InsertCountRegression(known, insertCount));
      }
      var increment := Min(insertCount - known, QPACK_INTEGER_MAX);
      var advanced: u64 := known + increment;
      var built := BuildInstruction(destination, InsertCountIncrement(increment));
      SplicedIsPublished(old(destination[..]), InsertCountIncrement(increment));
      if built.Err? {
        return Err(InstructionBuild(built.error));
      }
      known := advanced;
      return Ok(Some(built.value));
    }
  }
}
