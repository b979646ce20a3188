/**
 * An encoder and a decoder joined by first-in first-out channels: table changes and field
 * sections one way, feedback the other. Sections of one stream arrive in order; between
 * streams, and between streams and table changes, any interleaving may happen.
 */
module QpackProtocol {
  import opened Machine
  import opened QpackInstructions
  import opened QpackAccounting
  import opened QpackDecoderState

  /** A change to the encoder's table: entries below `dropped` go, and possibly one is inserted. */
  datatype TableChange = TableChange(dropped: nat, inserts: bool)

  /** Feedback on its way, with the decoder's Known Received Count just after it was emitted. */
  datatype Message = Message(instruction: Instruction, known: u64)

  /** One endpoint's table as a window of absolute indices: `dropped <= index < insertCount` are live. */
  datatype Window = Window(dropped: nat, insertCount: u64) {
    predicate Live(index: int) { dropped <= index < insertCount }
  }

  datatype World = World(
    limits: Limits,
    encoderTable: Window,
    accounting: Outstanding,
    changes: seq<TableChange>,
    transit: seq<Section>,
    decoderTable: Window,
    decoderKnown: u64,
    cancelled: set<u64>,
    feedback: seq<Message>,
    rejected: bool)

  datatype Step =
    | ChangeTable(dropped: nat, inserts: bool)
    | Send(stream: u64, required: u64, references: seq<u64>)
    | DeliverChange
    | Decode(stream: u64)
    | DecodeUnreferenced(stream: u64, required: u64)
    | Cancel(stream: u64)
    | Report
    | Feed(count: nat)

  predicate Initial(w: World) {
    && w.encoderTable == w.decoderTable == Window(0, 0)
    && w.accounting == Outstanding([], 0)
    && w.changes == [] && w.transit == [] && w.decoderKnown == 0 && w.cancelled == {} && w.feedback == []
    && !w.rejected
  }

  /**
   * What the two sides are asked to respect: an entry is dropped only when it may be evicted, a
   * section names live entries, and a section is decoded only once its inserts have arrived. Sections that name no
   * entry need no accounting, so they may be decoded at any time, whatever insert count they give.
   */
  predicate Enabled(w: World, step: Step) {
    match step
    case ChangeTable(dropped, inserts) =>
      && w.encoderTable.dropped <= dropped <= w.encoderTable.insertCount
      && (forall i: u64 :: w.encoderTable.dropped <= i < dropped ==> Evictable(w.accounting, i))
      && (inserts ==> w.encoderTable.insertCount + 1 < U64_LIMIT)
    case Send(stream, required, references) =>
      && stream <= QPACK_INTEGER_MAX && references != []
      && forall r :: r in references ==> w.encoderTable.Live(r)
    case DeliverChange => w.changes != [] && (w.changes[0].inserts ==> w.decoderTable.insertCount + 1 < U64_LIMIT)
    case Decode(stream) =>
      var p := Position(w.transit, stream);
      && stream !in w.cancelled && p < |w.transit|
      && w.transit[p].required <= w.decoderTable.insertCount
    case DecodeUnreferenced(_, _) => true
    case Cancel(stream) => stream <= QPACK_INTEGER_MAX
    case Report => w.decoderKnown < w.decoderTable.insertCount
    case Feed(count) => count <= |w.feedback|
  }

  function Heard(messages: seq<Message>): (instructions: seq<Instruction>)
    ensures |instructions| == |messages|
  {
    seq(|messages|, i requires 0 <= i < |messages| => messages[i].instruction)
  }

  /** The decoder counts what it has told, and sends it if there is anything to send. */
  function Emit(w: World, f: Feedback): World {
    var messages := match f.instruction
      case None => []
      case Some(i) => [Message(i, f.known)];
    w.(decoderKnown := f.known, feedback := w.feedback + messages)
  }

  /** A refused registration sends nothing. */
  function AfterSend(w: World, stream: u64, required: u64, references: seq<u64>): World
  {
    if CheckRegistration(w.accounting, w.limits, stream, required, references, w.encoderTable.insertCount) != None
      then w
    else w.(accounting := Registered(w.accounting, stream, required, references),
            transit := w.transit + [Section(stream, required, references)])
  }

  /** The encoder applies the octets of the next messages as one sequence. */
  function AfterFeed(w: World, count: nat): World
    requires count <= |w.feedback|
  {
    match ParseSequence(Printed(Heard(w.feedback[..count])))
    case Err(_) => w.(rejected := true)
    case Ok(views) =>
      var all := ApplyAll(w.accounting, Instructions(views), w.encoderTable.insertCount);
      w.(accounting := all.state, feedback := w.feedback[count..], rejected := w.rejected || all.failure != None)
  }

  function After(w: World, step: Step): World
    requires Enabled(w, step)
  {
    match step
    case ChangeTable(dropped, inserts) =>
      w.(encoderTable := Window(dropped, w.encoderTable.insertCount + if inserts then 1 else 0),
         changes := w.changes + [TableChange(dropped, inserts)])
    case Send(stream, required, references) => AfterSend(w, stream, required, references)
    case DeliverChange =>
      var change := w.changes[0];
      w.(decoderTable := Window(change.dropped, w.decoderTable.insertCount + if change.inserts then 1 else 0),
         changes := w.changes[1..])
    case Decode(stream) =>
      var p := Position(w.transit, stream);
      Emit(w.(transit := Removed(w.transit, p)),
           Acknowledged(w.decoderKnown, stream, DecodedSection(w.transit[p].required, true)))
    case DecodeUnreferenced(stream, required) =>
      Emit(w, Acknowledged(w.decoderKnown, stream, DecodedSection(required, false)))
    case Cancel(stream) =>
      Emit(w.(cancelled := w.cancelled + {stream}), Cancelled(w.decoderKnown, stream))
    case Report => Emit(w, Incremented(w.decoderKnown, w.decoderTable.insertCount))
    case Feed(count) => AfterFeed(w, count)
  }

  // ---- Sections of one stream ----

  /** The sections of one stream, in order. */
  function Of(sections: seq<Section>, stream: u64): (only: seq<Section>)
    ensures forall s :: s in only <==> s in sections && s.stream == stream
  {
    if sections == [] then []
    else (if sections[0].stream == stream then [sections[0]] else []) + Of(sections[1..], stream)
  }

  lemma OfCons(first: Section, rest: seq<Section>, stream: u64)
    ensures Of([first] + rest, stream) == (if first.stream == stream then [first] else []) + Of(rest, stream)
  {
    assert ([first] + rest)[1..] == rest;
  }

  lemma {:induction false} OfAppend(sections: seq<Section>, s: Section, stream: u64)
    ensures Of(sections + [s], stream) == Of(sections, stream) + if s.stream == stream then [s] else []
    decreases |sections|
  {
    if sections == [] {
      assert [] + [s] == [s];
    } else {
      hide Of;
      var first, rest := sections[0], sections[1..];
      assert sections == [first] + rest && sections + [s] == [first] + (rest + [s]);
      OfCons(first, rest, stream);
      OfCons(first, rest + [s], stream);
      OfAppend(rest, s, stream);
    }
  }

  /** The section that is acknowledged next is the first of its stream. */
  lemma {:induction false} OfPosition(sections: seq<Section>, stream: u64)
    ensures var p := Position(sections, stream);
            && (p == |sections| <==> Of(sections, stream) == [])
            && (p < |sections| ==> Of(sections, stream)[0] == sections[p])
    decreases |sections|
  {
    if sections != [] && sections[0].stream != stream {
      OfPosition(sections[1..], stream);
    }
  }

  lemma {:induction false} OfRemoved(sections: seq<Section>, stream: u64, other: u64)
    requires Position(sections, stream) < |sections|
    ensures Of(sections, stream) != []
    ensures Of(Removed(sections, Position(sections, stream)), other)
            == if other == stream then Of(sections, stream)[1..] else Of(sections, other)
    decreases |sections|
  {
    var p := Position(sections, stream);
    if p == 0 {
      assert Removed(sections, 0) == sections[1..];
    } else {
      assert Position(sections[1..], stream) == p - 1;
      assert Removed(sections, p)[1..] == Removed(sections[1..], p - 1);
      OfRemoved(sections[1..], stream, other);
    }
  }

  lemma {:induction false} OfWithout(sections: seq<Section>, stream: u64, other: u64)
    requires other != stream
    ensures Of(Without(sections, stream), other) == Of(sections, other)
    decreases |sections|
  {
    if sections != [] {
      OfWithout(sections[1..], stream, other);
      var kept := Without(sections[1..], stream);
      assert ([sections[0]] + kept)[1..] == kept;
    }
  }

  // ---- What feedback on its way will do ----

  /** Every message will be accepted, and will bring the encoder to the count the decoder had. */
  predicate Agrees(state: Outstanding, messages: seq<Message>, insertCount: u64)
    decreases |messages|
  {
    messages == [] ||
    var next := Apply(state, messages[0].instruction, insertCount);
    next.Ok? && next.value.known == messages[0].known && Agrees(next.value, messages[1..], insertCount)
  }

  /** The accounting once every message has been applied. */
  function Drained(state: Outstanding, messages: seq<Message>, insertCount: u64): Outstanding
    requires Agrees(state, messages, insertCount)
    decreases |messages|
  {
    if messages == [] then state
    else Drained(Apply(state, messages[0].instruction, insertCount).value, messages[1..], insertCount)
  }

  lemma {:induction false} AgreesSnoc(state: Outstanding, messages: seq<Message>, m: Message, insertCount: u64)
    requires Agrees(state, messages, insertCount)
    requires var next := Apply(Drained(state, messages, insertCount), m.instruction, insertCount);
             next.Ok? && next.value.known == m.known
    ensures Agrees(state, messages + [m], insertCount)
    ensures Drained(state, messages + [m], insertCount)
            == Apply(Drained(state, messages, insertCount), m.instruction, insertCount).value
    decreases |messages|
  {
    if messages == [] {
      assert messages + [m] == [m];
      assert [m][1..] == [];
    } else {
      assert (messages + [m])[1..] == messages[1..] + [m];
      AgreesSnoc(Apply(state, messages[0].instruction, insertCount).value, messages[1..], m, insertCount);
    }
  }

  lemma {:induction false} AgreesLater(state: Outstanding, messages: seq<Message>, insertCount: u64, later: u64)
    requires Agrees(state, messages, insertCount) && insertCount <= later
    ensures Agrees(state, messages, later)
    ensures Drained(state, messages, later) == Drained(state, messages, insertCount)
    decreases |messages|
  {
    if messages != [] {
      AgreesLater(Apply(state, messages[0].instruction, insertCount).value, messages[1..], insertCount, later);
    }
  }

  /** One instruction does to a longer list what it does to the shorter, unless it cancels the last stream. */
  lemma ApplyAppend(state: Outstanding, s: Section, i: Instruction, insertCount: u64)
    requires Apply(state, i, insertCount).Ok?
    ensures var longer := Apply(state.(sections := state.sections + [s]), i, insertCount);
            var next := Apply(state, i, insertCount).value;
            longer == Ok(next.(sections := next.sections + if i == StreamCancellation(s.stream) then [] else [s]))
  {
    match i
    case SectionAcknowledgment(stream) =>
      PositionAppend(state.sections, s, stream);
    case StreamCancellation(stream) =>
      WithoutAppend(state.sections, s, stream);
    case InsertCountIncrement(_) =>
  }

  lemma {:induction false} PositionAppend(sections: seq<Section>, s: Section, stream: u64)
    requires Position(sections, stream) < |sections|
    ensures Position(sections + [s], stream) == Position(sections, stream)
    ensures Removed(sections + [s], Position(sections, stream)) == Removed(sections, Position(sections, stream)) + [s]
    decreases |sections|
  {
    assert (sections + [s])[1..] == sections[1..] + [s];
    if sections[0].stream != stream {
      PositionAppend(sections[1..], s, stream);
    }
  }

  lemma {:induction false} WithoutAppend(sections: seq<Section>, s: Section, stream: u64)
    ensures Without(sections + [s], stream) == Without(sections, stream) + if s.stream == stream then [] else [s]
    decreases |sections|
  {
    if sections == [] {
      assert [] + [s] == [s];
      assert [s][1..] == [];
    } else {
      assert (sections + [s])[1..] == sections[1..] + [s];
      WithoutAppend(sections[1..], s, stream);
    }
  }

  predicate Cancels(messages: seq<Message>, stream: u64) {
    exists m :: m in messages && m.instruction == StreamCancellation(stream)
  }

  /** A section registered while feedback is on its way is still there afterwards, unless it is cancelled. */
  lemma {:induction false} AgreesAppend(state: Outstanding, messages: seq<Message>, insertCount: u64, s: Section)
    requires Agrees(state, messages, insertCount)
    ensures var longer := state.(sections := state.sections + [s]);
            && Agrees(longer, messages, insertCount)
            && var end := Drained(state, messages, insertCount);
               Drained(longer, messages, insertCount)
               == end.(sections := end.sections + if Cancels(messages, s.stream) then [] else [s])
    decreases |messages|
  {
    if messages != [] {
      var i, rest := messages[0].instruction, messages[1..];
      ApplyAppend(state, s, i, insertCount);
      var next := Apply(state, i, insertCount).value;
      assert messages == [messages[0]] + rest;
      if i == StreamCancellation(s.stream) {
        assert Cancels(messages, s.stream);
        assert next.sections + [] == next.sections;
        var end := Drained(next, rest, insertCount);
        assert end.sections + [] == end.sections;
      } else {
        assert Cancels(messages, s.stream) <==> Cancels(rest, s.stream);
        AgreesAppend(next, rest, insertCount, s);
      }
    }
  }

  /** Applying the first messages as one sequence does not fail and leaves the rest in agreement. */
  lemma {:induction false} AgreesFeed(state: Outstanding, messages: seq<Message>, insertCount: u64, count: nat)
    requires Agrees(state, messages, insertCount) && count <= |messages|
    ensures var all := ApplyAll(state, Heard(messages[..count]), insertCount);
            && all.failure == None
            && (count > 0 ==> all.state.known == messages[count - 1].known)
            && (count == 0 ==> all.state == state)
            && Agrees(all.state, messages[count..], insertCount)
            && Drained(all.state, messages[count..], insertCount) == Drained(state, messages, insertCount)
    decreases count
  {
    if count == 0 {
      assert messages[0..] == messages;
    } else {
      var next := Apply(state, messages[0].instruction, insertCount).value;
      assert Heard(messages[..count])[1..] == Heard(messages[1..][..count - 1]);
      assert messages[1..][count - 1..] == messages[count..];
      AgreesFeed(next, messages[1..], insertCount, count - 1);
    }
  }

  /** Feedback only confirms more and takes sections away. */
  lemma {:induction false} DrainedShrinks(state: Outstanding, messages: seq<Message>, insertCount: u64)
    requires Agrees(state, messages, insertCount)
    ensures var end := Drained(state, messages, insertCount);
            state.known <= end.known && forall s :: s in end.sections ==> s in state.sections
    decreases |messages|
  {
    if messages != [] {
      DrainedShrinks(Apply(state, messages[0].instruction, insertCount).value, messages[1..], insertCount);
    }
  }
}
