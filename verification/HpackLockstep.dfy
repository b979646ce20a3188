/**
 * The encoder and the decoder of one direction stay in lockstep over every run: whatever the
 * encoder emits, the decoder reads back, consuming every octet, and both end in the same state.
 */
module HpackLockstep {
  import opened Machine
  import opened HpackFields
  import opened HpackInteger
  import opened HpackRepresentation
  import opened HpackContext
  import opened HpackSession
  import HuffmanCode
  import HuffmanRfc7541
  import HuffmanTable

  // ---- One command ----

  /** What the decoder should report for a command that the encoder accepted. */
  function StepOf(std: Standard, entries: seq<Field>, c: Command): (step: Step)
    requires |std.fields| == STATIC_LEN
    requires c.EncodeIndexed? ==> Resolve(std, entries, c.index).Some?
  {
    match c
    case EncodeIndexed(index) => FieldStep(Resolve(std, entries, index).value, ByIndex)
    case EncodeLiteral(mode, name, text, _, _) => FieldStep(Field(name.decoded, text), ByLiteral(mode))
    case EncodeSizeUpdate(limit) => SizeUpdateStep(limit)
  }

  /** The caller's output can hold the field. */
  predicate Holds(step: Step, room: nat) {
    step.FieldStep? ==> |step.f.name| + |step.f.value| <= room
  }

  lemma PayloadDecodes(std: Standard, decoded: seq<byte>, huffman: bool, payload: seq<byte>)
    requires std.Valid() && Payload(std, decoded, huffman) == Ok(payload)
    requires |EncodeString(payload, huffman)| <= USIZE_MAX
    ensures TextOf(std, PrintedString(payload, huffman)) == Ok(decoded)
  {
    StringRoundTrip(payload, huffman, []);
    if huffman {
      HuffmanCode.RoundTrip(std.codes, decoded);
    }
  }

  lemma LiteralDecodes(std: Standard, entries: seq<Field>, c: Command, octets: seq<byte>, suffix: seq<byte>)
    requires std.Valid() && c.EncodeLiteral? && LiteralOctets(std, entries, c) == Ok(octets)
    ensures var r := ParseRepresentation(octets + suffix);
            && r.Ok? && r.value.Literal? && r.value.mode == c.mode && r.value.AsBytes() == octets
            && (r.value.name.Some? ==> |r.value.name.value.length.bytes| <= |r.value.name.value.bytes|)
            && |r.value.text.length.bytes| <= |r.value.text.bytes|
            && LiteralFieldOf(std, entries, r.value) == Ok(Field(c.name.decoded, c.text))
  {
    hide EncodeInteger;
    hide ParseRepresentation;
    var index := LiteralIndex(std, entries, c.name, c.huffmanName).value;
    var name := NameText(std, c.name, c.huffmanName).value;
    var text := ValueText(std, c.text, c.huffmanValue).value;
    assert octets == PrintLiteral(c.mode, index, name, text);
    LiteralRoundTrip(c.mode, index, name, text, suffix);
    PayloadDecodes(std, c.text, c.huffmanValue, text.payload);
    if name.Some? {
      PayloadDecodes(std, c.name.decoded, c.huffmanName, name.value.payload);
    }
  }

  /** A literal is written with the mode, the name and the codings that were asked for. */
  lemma LiteralShape(std: Standard, entries: seq<Field>, c: Command, octets: seq<byte>, suffix: seq<byte>)
    requires std.Valid() && c.EncodeLiteral? && LiteralOctets(std, entries, c) == Ok(octets)
    ensures var r := ParseRepresentation(octets + suffix);
            && r.Ok? && r.value.Literal? && r.value.mode == c.mode
            && r.value.text.IsHuffman() == c.huffmanValue
            && (c.name.IndexedName? ==> r.value.nameIndex.value == c.name.index && r.value.name == None)
            && (c.name.LiteralNameText? ==> r.value.name.Some? && r.value.name.value.IsHuffman() == c.huffmanName)
  {
    hide EncodeInteger;
    hide ParseRepresentation;
    var index := LiteralIndex(std, entries, c.name, c.huffmanName).value;
    var name := NameText(std, c.name, c.huffmanName).value;
    var text := ValueText(std, c.text, c.huffmanValue).value;
    LiteralRoundTrip(c.mode, index, name, text, suffix);
  }

  /**
   * A command that the encoder accepts is decoded, from its octets followed by anything, to
   * the same field or update, the same next state and exactly the rest of the input.
   */
  lemma StepLockstep(std: Standard, encoderCapacity: nat, decoderCapacity: nat, b: Block, c: Command,
                     destination: nat, suffix: seq<byte>, room: nat)
    requires std.Valid() && b.session.allowed <= decoderCapacity && room <= USIZE_MAX
    requires EncodeStep(std, encoderCapacity, b, c, destination).Ok?
    requires Holds(StepOf(std, b.session.fields, c), room)
    ensures var emitted := EncodeStep(std, encoderCapacity, b, c, destination).value;
            && emitted.octets != []
            && DecodeStep(std, decoderCapacity, b, emitted.octets + suffix, room)
               == Ok(Decoded(emitted.block, suffix, StepOf(std, b.session.fields, c)))
  {
    var octets := EncodeStep(std, encoderCapacity, b, c, destination).value.octets;
    assert (octets + suffix)[|octets|..] == suffix;
    match c
    case EncodeIndexed(index) => IndexedLockstep(std, decoderCapacity, b, index, suffix, room);
    case EncodeLiteral(_, _, _, _, _) => LiteralLockstep(std, decoderCapacity, b, c, octets, suffix, room);
    case EncodeSizeUpdate(limit) => SizeUpdateLockstep(std, decoderCapacity, b, limit, suffix, room);
  }

  lemma IndexedLockstep(std: Standard, capacity: nat, b: Block, index: u64, suffix: seq<byte>, room: nat)
    requires std.Valid() && b.session.pending.Next().None? && room <= USIZE_MAX
    requires var f := Resolve(std, b.session.fields, index); f.Some? && |f.value.name| + |f.value.value| <= room
    ensures DecodeStep(std, capacity, b, PrintIndexed(index) + suffix, room)
            == Ok(Decoded(b.(started := true), suffix, FieldStep(Resolve(std, b.session.fields, index).value, ByIndex)))
  {
    hide ParseRepresentation;
    hide EncodeInteger;
    var octets := PrintIndexed(index);
    IndexedRoundTrip(index, suffix);
    assert (octets + suffix)[|octets|..] == suffix;
  }

  lemma LiteralLockstep(std: Standard, capacity: nat, b: Block, c: Command, octets: seq<byte>, suffix: seq<byte>,
                        room: nat)
    requires std.Valid() && b.session.pending.Next().None? && room <= USIZE_MAX && c.EncodeLiteral?
    requires LiteralOctets(std, b.session.fields, c) == Ok(octets)
    requires |c.name.decoded| + |c.text| <= room
    ensures var f := Field(c.name.decoded, c.text);
            DecodeStep(std, capacity, b, octets + suffix, room)
            == Ok(Decoded(Block(AfterLiteral(b.session, c.mode, f), true), suffix, FieldStep(f, ByLiteral(c.mode))))
  {
    hide ParseRepresentation;
    hide LiteralFieldOf;
    hide LiteralOctets;
    hide Payload;
    hide Resolve;
    LiteralDecodes(std, b.session.fields, c, octets, suffix);
    LiteralChecked(std, b.session.fields, c, octets);
    assert (octets + suffix)[|octets|..] == suffix;
  }

  lemma LiteralChecked(std: Standard, entries: seq<Field>, c: Command, octets: seq<byte>)
    requires std.Valid() && c.EncodeLiteral? && LiteralOctets(std, entries, c) == Ok(octets)
    ensures octets != []
    ensures c.mode == IncrementalIndexing ==> EntrySize(Field(c.name.decoded, c.text)) <= USIZE_MAX
  {
    hide Payload;
    hide Resolve;
  }

  lemma SizeUpdateLockstep(std: Standard, capacity: nat, b: Block, limit: usize, suffix: seq<byte>, room: nat)
    requires std.Valid() && !b.started && limit <= b.session.allowed <= capacity
    requires b.session.pending.Next().Some? ==> limit == b.session.pending.Next().value
    ensures DecodeStep(std, capacity, b, PrintSizeUpdate(limit) + suffix, room)
            == Ok(Decoded(b.(session := b.session.Update(limit)), suffix, SizeUpdateStep(limit)))
  {
    hide ParseRepresentation;
    hide EncodeInteger;
    var octets := PrintSizeUpdate(limit);
    SizeUpdateRoundTrip(limit, suffix);
    assert (octets + suffix)[|octets|..] == suffix;
  }

  // ---- One block ----

  /** A call of the block encoder: the command and the destination room it is given. */
  datatype Call = Call(c: Command, room: nat)

  datatype EncodedBlock = EncodedBlock(block: Block, octets: seq<byte>, steps: seq<Step>)

  /** A block encoder run: calls it rejects leave no trace. */
  function EncodeCalls(std: Standard, capacity: nat, b: Block, calls: seq<Call>): (r: EncodedBlock)
    requires |std.fields| == STATIC_LEN && |std.codes| == 257
    decreases |calls|
  {
    if calls == [] then EncodedBlock(b, [], [])
    else
      match EncodeStep(std, capacity, b, calls[0].c, calls[0].room)
      case Err(_) => EncodeCalls(std, capacity, b, calls[1..])
      case Ok(emitted) =>
        var rest := EncodeCalls(std, capacity, emitted.block, calls[1..]);
        EncodedBlock(rest.block, emitted.octets + rest.octets, [StepOf(std, b.session.fields, calls[0].c)] + rest.steps)
  }

  datatype DecodedBlock = DecodedBlock(block: Block, steps: seq<Step>, outcome: Result<(), DecodeError>)

  /** A block decoder run: it is called until it completes or fails. */
  function DecodeAll(std: Standard, capacity: nat, b: Block, remaining: seq<byte>, room: nat): (r: DecodedBlock)
    requires |std.fields| == STATIC_LEN && |std.codes| == 257
    decreases |remaining|
  {
    match DecodeStep(std, capacity, b, remaining, room)
    case Err(e) => DecodedBlock(b, [], Err(e))
    case Ok(d) =>
      DecodeConsumes(std, capacity, b, remaining, room);
      if d.step == Complete then DecodedBlock(b, [], Ok(()))
      else
        var rest := DecodeAll(std, capacity, d.block, d.remaining, room);
        DecodedBlock(rest.block, [d.step] + rest.steps, rest.outcome)
  }

  predicate HoldsAll(steps: seq<Step>, room: nat) {
    forall i :: 0 <= i < |steps| ==> Holds(steps[i], room)
  }

  /** How a block ends: complete unless a size update is still owed, which is what `finish` checks. */
  function Ending(s: Session): Result<(), DecodeError> {
    if s.pending.Next().Some? then Err(DecodedSizeUpdateRequired) else Ok(())
  }

  lemma {:induction false} BlockLockstep(std: Standard, encoderCapacity: nat, decoderCapacity: nat, b: Block,
                                         calls: seq<Call>, room: nat)
    requires std.Valid() && b.session.Valid(encoderCapacity) && b.session.allowed <= decoderCapacity
             && room <= USIZE_MAX
    requires HoldsAll(EncodeCalls(std, encoderCapacity, b, calls).steps, room)
    ensures var e := EncodeCalls(std, encoderCapacity, b, calls);
            && DecodeAll(std, decoderCapacity, b, e.octets, room)
               == DecodedBlock(e.block, e.steps, Ending(e.block.session))
            && e.block.session.Valid(encoderCapacity) && e.block.session.allowed == b.session.allowed
    decreases |calls|
  {
    if calls != [] {
      var r := EncodeStep(std, encoderCapacity, b, calls[0].c, calls[0].room);
      match r
      case Err(_) => BlockLockstep(std, encoderCapacity, decoderCapacity, b, calls[1..], room);
      case Ok(emitted) =>
        var rest := EncodeCalls(std, encoderCapacity, emitted.block, calls[1..]);
        EncodeKeepsValid(std, encoderCapacity, b, calls[0].c, calls[0].room);
        var step := StepOf(std, b.session.fields, calls[0].c);
        var steps := [step] + rest.steps;
        assert steps[0] == step;
        assert forall i :: 0 <= i < |rest.steps| ==> rest.steps[i] == steps[i + 1];
        BlockLockstep(std, encoderCapacity, decoderCapacity, emitted.block, calls[1..], room);
        StepLockstep(std, encoderCapacity, decoderCapacity, b, calls[0].c, calls[0].room, rest.octets, room);
    }
  }

  // ---- A whole run ----

  /** What the owner of the encoder does: change the allowed limit, or emit one header block. */
  datatype Action = SetAllowed(limit: nat) | SendBlock(calls: seq<Call>)

  /** What the other side learns: a limit that took effect, or the octets of a block. */
  datatype Message = LimitTookEffect(limit: nat) | BlockOctets(octets: seq<byte>)

  /** What decoding a message gave. */
  datatype Outcome = LimitSet | BlockDecoded(steps: seq<Step>, ending: Result<(), DecodeError>)

  datatype EncoderRun = EncoderRun(session: Session, messages: seq<Message>, outcomes: seq<Outcome>)

  /** An encoder run, with the outcomes its peer should see. A limit beyond capacity is rejected and never sent. */
  function Encode(std: Standard, capacity: nat, s: Session, actions: seq<Action>): (r: EncoderRun)
    requires |std.fields| == STATIC_LEN && |std.codes| == 257
    decreases |actions|
  {
    if actions == [] then EncoderRun(s, [], [])
    else
      match actions[0]
      case SetAllowed(limit) =>
        if limit > capacity then Encode(std, capacity, s, actions[1..])
        else
          var rest := Encode(std, capacity, s.Change(limit), actions[1..]);
          EncoderRun(rest.session, [LimitTookEffect(limit)] + rest.messages, [LimitSet] + rest.outcomes)
      case SendBlock(calls) =>
        var e := EncodeCalls(std, capacity, Block(s, false), calls);
        var rest := Encode(std, capacity, e.block.session, actions[1..]);
        EncoderRun(rest.session, [BlockOctets(e.octets)] + rest.messages,
                   [BlockDecoded(e.steps, Ending(e.block.session))] + rest.outcomes)
  }

  datatype DecoderRun = DecoderRun(session: Session, outcomes: seq<Outcome>)

  function Decode(std: Standard, capacity: nat, s: Session, messages: seq<Message>, room: nat): (r: DecoderRun)
    requires |std.fields| == STATIC_LEN && |std.codes| == 257
    decreases |messages|
  {
    if messages == [] then DecoderRun(s, [])
    else
      match messages[0]
      case LimitTookEffect(limit) =>
        var rest := Decode(std, capacity, if limit > capacity then s else s.Change(limit), messages[1..], room);
        DecoderRun(rest.session, [LimitSet] + rest.outcomes)
      case BlockOctets(octets) =>
        var d := DecodeAll(std, capacity, Block(s, false), octets, room);
        var rest := Decode(std, capacity, d.block.session, messages[1..], room);
        DecoderRun(rest.session, [BlockDecoded(d.steps, d.outcome)] + rest.outcomes)
  }

  /** A limit beyond the decoder's storage changes nothing. */
  lemma LimitRefused(std: Standard, capacity: nat, s: Session, limit: nat, rest: seq<Message>, room: nat)
    requires |std.fields| == STATIC_LEN && |std.codes| == 257 && limit > capacity
    ensures Decode(std, capacity, s, [LimitTookEffect(limit)] + rest, room).session
            == Decode(std, capacity, s, rest, room).session
  {
    assert ([LimitTookEffect(limit)] + rest)[1..] == rest;
  }

  /** The decoder's table can take every limit that the encoder's can, and its output every field. */
  predicate Affords(actions: seq<Action>, outcomes: seq<Outcome>, encoderCapacity: nat, decoderCapacity: nat,
                    room: nat)
  {
    && (forall i :: 0 <= i < |actions| && actions[i].SetAllowed? && actions[i].limit <= encoderCapacity ==>
          actions[i].limit <= decoderCapacity)
    && (forall i :: 0 <= i < |outcomes| && outcomes[i].BlockDecoded? ==> HoldsAll(outcomes[i].steps, room))
  }

  lemma AffordsRest(actions: seq<Action>, outcomes: seq<Outcome>, rest: seq<Outcome>,
                    encoderCapacity: nat, decoderCapacity: nat, room: nat)
    requires actions != [] && Affords(actions, outcomes, encoderCapacity, decoderCapacity, room)
    requires outcomes == rest || (outcomes != [] && outcomes[1..] == rest)
    ensures Affords(actions[1..], rest, encoderCapacity, decoderCapacity, room)
  {
    if outcomes != rest {
      assert forall i :: 0 <= i < |rest| ==> rest[i] == outcomes[i + 1];
    }
    assert forall i :: 0 <= i < |actions[1..]| ==> actions[1..][i] == actions[i + 1];
  }

  /**
   * Lockstep over whole runs: starting from equal states, for every sequence of limit changes and
   * blocks, with any calls accepted or rejected along the way, the decoder reports exactly what
   * was encoded, finds each block complete exactly when the encoder could finish it, and ends
   * with the encoder's table, limits and owed updates. The two capacities need not agree, and limits
   * above the encoder's, which it rejects, may be above the decoder's too.
   */
  lemma {:induction false} RunLockstep(std: Standard, encoderCapacity: nat, decoderCapacity: nat, s: Session,
                                       actions: seq<Action>, room: nat)
    requires std.Valid() && s.Valid(encoderCapacity) && s.allowed <= decoderCapacity && room <= USIZE_MAX
    requires Affords(actions, Encode(std, encoderCapacity, s, actions).outcomes, encoderCapacity, decoderCapacity, room)
    ensures var e := Encode(std, encoderCapacity, s, actions);
            && Decode(std, decoderCapacity, s, e.messages, room) == DecoderRun(e.session, e.outcomes)
            && e.session.Valid(encoderCapacity)
    decreases |actions|
  {
    hide EncodeCalls;
    hide DecodeAll;
    hide HoldsAll;
    if actions != [] {
      var e := Encode(std, encoderCapacity, s, actions);
      match actions[0]
      case SetAllowed(limit) =>
        if limit > encoderCapacity {
          AffordsRest(actions, e.outcomes, e.outcomes, encoderCapacity, decoderCapacity, room);
          RunLockstep(std, encoderCapacity, decoderCapacity, s, actions[1..], room);
        } else {
          var rest := Encode(std, encoderCapacity, s.Change(limit), actions[1..]);
          AffordsRest(actions, e.outcomes, rest.outcomes, encoderCapacity, decoderCapacity, room);
          RunLockstep(std, encoderCapacity, decoderCapacity, s.Change(limit), actions[1..], room);
          assert e.messages[1..] == rest.messages;
        }
      case SendBlock(calls) =>
        var block := EncodeCalls(std, encoderCapacity, Block(s, false), calls);
        var rest := Encode(std, encoderCapacity, block.block.session, actions[1..]);
        AffordsRest(actions, e.outcomes, rest.outcomes, encoderCapacity, decoderCapacity, room);
        assert e.outcomes[0] == BlockDecoded(block.steps, Ending(block.block.session));
        BlockLockstep(std, encoderCapacity, decoderCapacity, Block(s, false), calls, room);
        RunLockstep(std, encoderCapacity, decoderCapacity, block.block.session, actions[1..], room);
        assert e.messages[1..] == rest.messages;
    }
  }

  /** The constants of the RFC meet what the runs ask of them, for any 61 static entries. */
  lemma RfcIsStandard(fields: seq<Field>)
    requires |fields| == STATIC_LEN
    ensures Standard(fields, HuffmanTable.CODES()).Valid()
  {
    HuffmanRfc7541.CodeIsSound();
  }
}
