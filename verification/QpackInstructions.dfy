/** RFC 9204 section 4.4 decoder-stream instructions and unframed sequences of them. */
module QpackInstructions {
  import opened Machine
  import opened HpackInteger

  /** The 62-bit ceiling on QPACK integers. */
  const QPACK_INTEGER_MAX: u64 := 0x3FFF_FFFF_FFFF_FFFF

  datatype Instruction =
    | SectionAcknowledgment(stream: u64)
    | StreamCancellation(stream: u64)
    | InsertCountIncrement(increment: u64)
  {
    function Operand(): u64 {
      match this
      case SectionAcknowledgment(stream) => stream
      case StreamCancellation(stream) => stream
      case InsertCountIncrement(increment) => increment
    }

    function PrefixBits(): (bits: byte)
      ensures ValidPrefix(bits)
    {
      if SectionAcknowledgment? then 7 else 6
    }

    function Tag(): (tag: byte)
      ensures HighBits(tag, PrefixBits())
    {
      match this
      case SectionAcknowledgment(_) => 0x80
      case StreamCancellation(_) => 0x40
      case InsertCountIncrement(_) => 0
    }

    function Octets(): (octets: seq<byte>)
      ensures octets != []
    {
      EncodeInteger(Operand(), PrefixBits(), Tag())
    }

    predicate Representable() { Operand() <= QPACK_INTEGER_MAX }
  }

  /** An instruction together with the exact octets that represent it. */
  datatype InstructionView = InstructionView(instruction: Instruction, bytes: seq<byte>)

  datatype OperandError = Malformed(error: IntegerError) | ValueTooLarge(value: u64)

  datatype InstructionError =
    | DispatchIncomplete
    | InvalidAcknowledgment(nested: OperandError)
    | InvalidCancellation(nested: OperandError)
    | InvalidIncrement(nested: OperandError)

  datatype SequenceError = SequenceError(offset: nat, error: InstructionError)

  datatype InstructionBuildError =
    | OperandTooLarge(value: u64)
    | InstructionBufferTooShort(required: nat, available: nat)

  // ---- One instruction ----

  /** An integer under the 62-bit ceiling. */
  function ParseOperand(bytes: seq<byte>, prefixBits: byte): (r: Result<IntegerView, OperandError>)
    ensures r.Ok? ==> 1 <= |r.value.bytes| <= |bytes| && r.value.bytes == bytes[..|r.value.bytes|]
  {
    match ParseInteger(bytes, prefixBits)
    case Err(e) => Err(Malformed(e))
    case Ok(view) => if view.value > QPACK_INTEGER_MAX then Err(ValueTooLarge(view.value)) else Ok(view)
  }

  /** Dispatches on the first octet and reads the one operand. */
  function ParseInstruction(bytes: seq<byte>): (r: Result<InstructionView, InstructionError>)
    ensures r.Ok? ==> 1 <= |r.value.bytes| <= |bytes| && r.value.bytes == bytes[..|r.value.bytes|]
  {
    if bytes == [] then Err(DispatchIncomplete)
    else if bytes[0] >= 0x80 then
      match ParseOperand(bytes, 7)
      case Err(e) => Err(InvalidAcknowledgment(e))
      case Ok(view) => Ok(InstructionView(SectionAcknowledgment(view.value), view.bytes))
    else if bytes[0] >= 0x40 then
      match ParseOperand(bytes, 6)
      case Err(e) => Err(InvalidCancellation(e))
      case Ok(view) => Ok(InstructionView(StreamCancellation(view.value), view.bytes))
    else
      match ParseOperand(bytes, 6)
      case Err(e) => Err(InvalidIncrement(e))
      case Ok(view) => Ok(InstructionView(InsertCountIncrement(view.value), view.bytes))
  }

  /** The tag tells the three instructions apart, whatever the operand. */
  lemma FirstOctet(i: Instruction)
    ensures match i
            case SectionAcknowledgment(_) => 0x80 <= i.Octets()[0]
            case StreamCancellation(_) => 0x40 <= i.Octets()[0] < 0x80
            case InsertCountIncrement(_) => i.Octets()[0] < 0x40
  {
    HighBitsFit(i.Tag(), i.PrefixBits());
  }

  /** A built instruction, followed by anything, parses back to itself. */
  lemma InstructionRoundTrip(i: Instruction, suffix: seq<byte>)
    requires i.Representable()
    ensures ParseInstruction(i.Octets() + suffix) == Ok(InstructionView(i, i.Octets()))
  {
    FirstOctet(i);
    assert (i.Octets() + suffix)[0] == i.Octets()[0];
    hide EncodeInteger;
    hide ParseInteger;
    RoundTrip(i.Operand(), i.PrefixBits(), i.Tag(), suffix);
  }

  /** Writes an instruction at the front of the destination; on failure nothing is written. */
  method BuildInstruction(destination: array<byte>, i: Instruction)
    returns (r: Result<InstructionView, InstructionBuildError>)
    modifies destination
    ensures !i.Representable() ==> r == Err(OperandTooLarge(i.Operand()))
    ensures i.Representable() && destination.Length < |i.Octets()| ==>
              r == Err(InstructionBufferTooShort(|i.Octets()|, destination.Length))
    ensures i.Representable() && destination.Length >= |i.Octets()| ==> r == Ok(InstructionView(i, i.Octets()))
    ensures destination[..] == if r.Ok? then Splice(old(destination[..]), 0, i.Octets()) else old(destination[..])
  {
    hide EncodeInteger;
    hide Splice;
    if i.Operand() > QPACK_INTEGER_MAX {
      return Err(OperandTooLarge(i.Operand()));
    }
    var length := EncodedLen(i.Operand(), i.PrefixBits());
    PrefixLength(i.Operand(), i.PrefixBits(), i.Tag());
    if destination.Length < length {
      return Err(InstructionBufferTooShort(length, destination.Length));
    }
    WriteCanonical(destination, 0, i.PrefixBits(), i.Tag(), i.Operand());
    return Ok(InstructionView(i, i.Octets()));
  }

  /** The first octet: a one and seven bits, 01 and six bits, or 00 and six bits, as far as they go. */
  lemma InstructionOnWire(operand: u64)
    ensures operand < 127 ==> SectionAcknowledgment(operand).Octets() == [0x80 + operand]
    ensures operand < 63 ==> StreamCancellation(operand).Octets() == [0x40 + operand]
    ensures operand < 63 ==> InsertCountIncrement(operand).Octets() == [operand]
    ensures SectionAcknowledgment(127).Octets() == [0xFF, 0]
    ensures StreamCancellation(63).Octets() == [0x7F, 0]
    ensures InsertCountIncrement(63).Octets() == [0x3F, 0]
  {
    assert EncodeTail(0) == [0];
  }

  /** Why octets are no instruction: there are none, or the operand behind the tag is no integer of 62 bits. */
  lemma InstructionRefused(bytes: seq<byte>)
    requires ParseInstruction(bytes).Err?
    ensures match ParseInstruction(bytes).error
            case DispatchIncomplete => bytes == []
            case InvalidAcknowledgment(e) => bytes != [] && bytes[0] >= 0x80 && OperandFault(bytes, 7, e)
            case InvalidCancellation(e) => bytes != [] && 0x40 <= bytes[0] < 0x80 && OperandFault(bytes, 6, e)
            case InvalidIncrement(e) => bytes != [] && bytes[0] < 0x40 && OperandFault(bytes, 6, e)
  {
    hide ParseInteger;
  }

  predicate OperandFault(bytes: seq<byte>, prefixBits: byte, e: OperandError) {
    match e
    case Malformed(nested) => ParseInteger(bytes, prefixBits) == Err(nested)
    case ValueTooLarge(value) =>
      && value >= 0x4000_0000_0000_0000
      && ParseInteger(bytes, prefixBits).Ok? && ParseInteger(bytes, prefixBits).value.value == value
  }

  /** What an accepted instruction was read from: its tag, and an operand of at most 62 bits. */
  lemma InstructionRead(bytes: seq<byte>)
    requires ParseInstruction(bytes).Ok?
    ensures var i := ParseInstruction(bytes).value.instruction;
            var integer := ParseInteger(bytes, if bytes[0] >= 0x80 then 7 else 6);
            && integer.Ok? && integer.value.value == i.Operand() < 0x4000_0000_0000_0000
            && integer.value.bytes == ParseInstruction(bytes).value.bytes
            && (i.SectionAcknowledgment? <==> bytes[0] >= 0x80)
            && (i.StreamCancellation? <==> 0x40 <= bytes[0] < 0x80)
  {
    hide ParseInteger;
  }

  // ---- Sequences ----

  /** Every instruction from `offset` on, or the offset of the first one that is malformed. */
  function ParseFrom(bytes: seq<byte>, offset: nat): (r: Result<seq<InstructionView>, SequenceError>)
    requires offset <= |bytes|
    decreases |bytes| - offset
  {
    if offset == |bytes| then Ok([])
    else
      match ParseInstruction(bytes[offset..])
      case Err(e) => Err(SequenceError(offset, e))
      case Ok(view) =>
        match ParseFrom(bytes, offset + |view.bytes|)
        case Err(e) => Err(e)
        case Ok(rest) => Ok([view] + rest)
  }

  function ParseSequence(bytes: seq<byte>): Result<seq<InstructionView>, SequenceError> {
    ParseFrom(bytes, 0)
  }

  /** The validation loop over a whole sequence. */
  method ValidateSequence(bytes: seq<byte>) returns (r: Result<(), SequenceError>)
    ensures r.Ok? <==> ParseSequence(bytes).Ok?
    ensures r.Err? ==> ParseSequence(bytes) == Err(r.error)
  {
    hide ParseInstruction;
    var offset := 0;
    while offset < |bytes|
      invariant offset <= |bytes|
      invariant ParseSequence(bytes).Ok? <==> ParseFrom(bytes, offset).Ok?
      invariant ParseFrom(bytes, offset).Err? ==> ParseSequence(bytes) == ParseFrom(bytes, offset)
    {
      var view := ParseInstruction(bytes[offset..]);
      if view.Err? {
        return Err(SequenceError(offset, view.error));
      }
      offset := offset + |view.value.bytes|;
    }
    return Ok(());
  }

  function Instructions(views: seq<InstructionView>): (instructions: seq<Instruction>)
    ensures |instructions| == |views|
  {
    seq(|views|, i requires 0 <= i < |views| => views[i].instruction)
  }

  /** The octets that a run of instructions occupies. */
  function Extent(views: seq<InstructionView>): nat
    decreases |views|
  {
    var n := |views| - 1;
    if views == [] then 0 else Extent(views[..n]) + |views[n].bytes|
  }

  function Printed(instructions: seq<Instruction>): (octets: seq<byte>) {
    if instructions == [] then [] else instructions[0].Octets() + Printed(instructions[1..])
  }

  predicate AllRepresentable(instructions: seq<Instruction>) {
    forall i :: 0 <= i < |instructions| ==> instructions[i].Representable()
  }

  /** The instructions a decoder printed one after another are the ones the encoder reads. */
  lemma {:induction false} SequenceRoundTrip(before: seq<byte>, instructions: seq<Instruction>)
    requires AllRepresentable(instructions)
    ensures var r := ParseFrom(before + Printed(instructions), |before|);
            r.Ok? && Instructions(r.value) == instructions
    decreases |instructions|
  {
    hide EncodeInteger;
    hide ParseInstruction;
    var bytes := before + Printed(instructions);
    if instructions != [] {
      var octets := instructions[0].Octets();
      assert bytes[|before|..] == octets + Printed(instructions[1..]);
      InstructionRoundTrip(instructions[0], Printed(instructions[1..]));
      assert bytes == (before + octets) + Printed(instructions[1..]);
      SequenceRoundTrip(before + octets, instructions[1..]);
      var rest := ParseFrom(bytes, |before + octets|).value;
      assert ParseFrom(bytes, |before|) == Ok([InstructionView(instructions[0], octets)] + rest);
    }
  }

  lemma PrintedThenParsed(instructions: seq<Instruction>)
    requires AllRepresentable(instructions)
    ensures var r := ParseSequence(Printed(instructions));
            r.Ok? && Instructions(r.value) == instructions
  {
    SequenceRoundTrip([], instructions);
    assert [] + Printed(instructions) == Printed(instructions);
  }
}
