/** What every run of the two endpoints keeps, and what follows from it in every reachable state. */
module QpackSafety {
  import opened Machine
  import opened QpackInstructions
  import opened QpackAccounting
  import opened QpackProtocol
  import QpackBlockedStreams

  // ---- The invariant ----

  function Pending(changes: seq<TableChange>): nat {
    if changes == [] then 0 else (if changes[0].inserts then 1 else 0) + Pending(changes[1..])
  }

  /** Where the live entries begin once every change has been delivered. */
  function LastDropped(dropped: nat, changes: seq<TableChange>): nat {
    if changes == [] then dropped else changes[|changes| - 1].dropped
  }

  /** How far each side has come. */
  predicate Counted(w: World) {
    && w.decoderKnown <= w.decoderTable.insertCount
    && w.decoderTable.insertCount + Pending(w.changes) == w.encoderTable.insertCount
    && LastDropped(w.decoderTable.dropped, w.changes) == w.encoderTable.dropped
    && w.decoderTable.dropped <= w.encoderTable.dropped <= w.accounting.known
    && forall c :: c in w.changes ==> c.dropped <= w.encoderTable.dropped
  }

  /** Outstanding sections name only entries the encoder still has. */
  predicate NamesLive(w: World) {
    forall s, r :: s in w.accounting.sections && r in s.references ==>
            w.encoderTable.dropped <= r < w.encoderTable.insertCount
  }

  predicate Mirrors(sections: seq<Section>, transit: seq<Section>, cancelled: set<u64>) {
    forall stream: u64 :: stream !in cancelled ==> Of(sections, stream) == Of(transit, stream)
  }

  /**
   * The accounting, once all feedback on its way has been applied, is what the decoder sees:
   * its Known Received Count, and for every stream it has not cancelled the sections still to come.
   */
  predicate FeedbackAgrees(w: World) {
    && Agrees(w.accounting, w.feedback, w.encoderTable.insertCount)
    && var end := Drained(w.accounting, w.feedback, w.encoderTable.insertCount);
       end.known == w.decoderKnown && Mirrors(end.sections, w.transit, w.cancelled)
  }

  /** Streams have 62-bit identifiers, and a cancellation on its way is of a cancelled stream. */
  predicate Named(w: World) {
    && (forall m :: m in w.feedback ==>
          m.instruction.Representable() && (m.instruction.StreamCancellation? ==> m.instruction.stream in w.cancelled))
    && (forall s :: s in w.transit ==> s.stream <= QPACK_INTEGER_MAX)
    && forall s :: s in w.accounting.sections ==> s.stream <= QPACK_INTEGER_MAX
  }

  predicate Inv(w: World) {
    !w.rejected && Accounted(w.accounting, w.limits) && Counted(w) && NamesLive(w) && FeedbackAgrees(w) && Named(w)
  }

  // ---- Every step keeps it ----

  lemma InitialInv(w: World)
    requires Initial(w)
    ensures Inv(w)
  {
    assert Blocked([], 0) == {};
  }

  lemma {:induction false} PendingSnoc(changes: seq<TableChange>, c: TableChange)
    ensures Pending(changes + [c]) == Pending(changes) + if c.inserts then 1 else 0
    decreases |changes|
  {
    if changes == [] {
      assert changes + [c] == [c];
    } else {
      assert (changes + [c])[1..] == changes[1..] + [c];
      PendingSnoc(changes[1..], c);
    }
  }

  lemma ChangeKeepsInv(w: World, dropped: nat, inserts: bool)
    requires Inv(w) && Enabled(w, ChangeTable(dropped, inserts))
    ensures Inv(After(w, ChangeTable(dropped, inserts)))
  {
    var after := After(w, ChangeTable(dropped, inserts));
    PendingSnoc(w.changes, TableChange(dropped, inserts));
    AgreesLater(w.accounting, w.feedback, w.encoderTable.insertCount, after.encoderTable.insertCount);
    if w.encoderTable.dropped < dropped {
      var last: u64 := dropped - 1;
      assert Evictable(w.accounting, last);
    }
    forall s, r | s in w.accounting.sections && r in s.references
      ensures dropped <= r < after.encoderTable.insertCount
    {
      if r < dropped {
        assert Evictable(w.accounting, r);
        FlatMember(w.accounting.sections, r);
        assert false;
      }
    }
  }

  lemma SendKeepsCounts(w: World, stream: u64, required: u64, references: seq<u64>)
    requires Counted(w) && Enabled(w, Send(stream, required, references))
    ensures Counted(After(w, Send(stream, required, references)))
  {
    hide CheckRegistration;
  }

  lemma SendKeepsInv(w: World, stream: u64, required: u64, references: seq<u64>)
    requires Inv(w) && Enabled(w, Send(stream, required, references))
    ensures Inv(After(w, Send(stream, required, references)))
  {
    hide Agrees;
    hide Drained;
    hide Mirrors;
    hide Counted;
    SendKeepsCounts(w, stream, required, references);
    var n := w.encoderTable.insertCount;
    var after := After(w, Send(stream, required, references));
    RegistrationExact(w.accounting, w.limits, stream, required, references, n);
    if after != w {
      var s := Section(stream, required, references);
      AgreesAppend(w.accounting, w.feedback, n, s);
      var end, cancels := Drained(w.accounting, w.feedback, n), Cancels(w.feedback, stream);
      assert cancels ==> stream in w.cancelled;
      assert end.sections + [] == end.sections;
      MirrorsAppend(end.sections, w.transit, w.cancelled, s, !cancels);
      hide Accounted;
    }
  }

  /** A section that is sent is accounted for and on its way; one that is refused leaves no trace. */
  lemma SendMeaning(w: World, stream: u64, required: u64, references: seq<u64>)
    requires Inv(w) && Enabled(w, Send(stream, required, references))
    ensures var s, after := Section(stream, required, references), After(w, Send(stream, required, references));
            if WellFormed(s) && Largest(references) < w.encoderTable.insertCount
               && Accounted(w.accounting.(sections := w.accounting.sections + [s]), w.limits)
            then
              && after.transit == w.transit + [s]
              && after.accounting == w.accounting.(sections := w.accounting.sections + [s])
            else after == w
  {
    RegistrationExact(w.accounting, w.limits, stream, required, references, w.encoderTable.insertCount);
  }

  /** Both lists grow by a section, or only one of them when the stream is cancelled. */
  lemma MirrorsAppend(sections: seq<Section>, transit: seq<Section>, cancelled: set<u64>, s: Section, kept: bool)
    requires Mirrors(sections, transit, cancelled) && (kept || s.stream in cancelled)
    ensures Mirrors(if kept then sections + [s] else sections, transit + [s], cancelled)
  {
    forall other: u64 | other !in cancelled
      ensures Of(if kept then sections + [s] else sections, other) == Of(transit + [s], other)
    {
      OfAppend(sections, s, other);
      OfAppend(transit, s, other);
      assert Of(sections, other) == Of(transit, other);
    }
  }

  lemma DeliverKeepsInv(w: World)
    requires Inv(w) && Enabled(w, DeliverChange)
    ensures Inv(After(w, DeliverChange))
  {
    assert w.changes[0] in w.changes;
  }

  /** What a message the decoder emits must do to the drained accounting. */
  lemma EmitAgrees(w: World, w': World, m: Message)
    requires Inv(w)
    requires w'.accounting == w.accounting && w'.encoderTable == w.encoderTable && w'.feedback == w.feedback + [m]
    requires var next := Apply(Drained(w.accounting, w.feedback, w.encoderTable.insertCount), m.instruction,
                               w.encoderTable.insertCount);
             && next.Ok? && next.value.known == m.known == w'.decoderKnown
             && Mirrors(next.value.sections, w'.transit, w'.cancelled)
    ensures FeedbackAgrees(w')
  {
    AgreesSnoc(w.accounting, w.feedback, m, w.encoderTable.insertCount);
  }

  lemma DecodeKeepsInv(w: World, stream: u64)
    requires Inv(w) && Enabled(w, Decode(stream))
    ensures Inv(After(w, Decode(stream)))
  {
    var n := w.encoderTable.insertCount;
    var after := After(w, Decode(stream));
    var end := Drained(w.accounting, w.feedback, n);
    var p, q := Position(w.transit, stream), Position(end.sections, stream);
    assert Of(end.sections, stream) == Of(w.transit, stream);
    OfPosition(w.transit, stream);
    OfPosition(end.sections, stream);
    assert end.sections[q] == w.transit[p];
    var removed := Removed(end.sections, q);
    forall other: u64 | other !in w.cancelled
      ensures Of(removed, other) == Of(after.transit, other)
    {
      OfRemoved(end.sections, stream, other);
      OfRemoved(w.transit, stream, other);
      assert Of(end.sections, other) == Of(w.transit, other);
    }
    EmitAgrees(w, after, after.feedback[|w.feedback|]);
  }

  /** A section without dynamic references owes no feedback: decoding it changes nothing between the two sides. */
  lemma UnreferencedKeepsAll(w: World, stream: u64, required: u64)
    ensures After(w, DecodeUnreferenced(stream, required)) == w
  {
    assert w.feedback + [] == w.feedback;
  }

  lemma CancelKeepsInv(w: World, stream: u64)
    requires Inv(w) && Enabled(w, Cancel(stream))
    ensures Inv(After(w, Cancel(stream)))
  {
    var n := w.encoderTable.insertCount;
    var after := After(w, Cancel(stream));
    var end := Drained(w.accounting, w.feedback, n);
    forall other: u64 | other !in after.cancelled
      ensures Of(Without(end.sections, stream), other) == Of(w.transit, other)
    {
      OfWithout(end.sections, stream, other);
    }
    EmitAgrees(w, after, after.feedback[|w.feedback|]);
  }

  lemma ReportKeepsInv(w: World)
    requires Inv(w) && Enabled(w, Report)
    ensures Inv(After(w, Report))
  {
    var after := After(w, Report);
    EmitAgrees(w, after, after.feedback[|w.feedback|]);
  }

  /** The octets of the messages that are fed parse back to them. */
  lemma FeedParses(w: World, count: nat)
    requires Inv(w) && Enabled(w, Feed(count))
    ensures var heard := Heard(w.feedback[..count]);
            var r := ParseSequence(Printed(heard));
            r.Ok? && Instructions(r.value) == heard
  {
    var heard := Heard(w.feedback[..count]);
    forall i | 0 <= i < |heard|
      ensures heard[i].Representable()
    {
      assert w.feedback[i] in w.feedback;
    }
    PrintedThenParsed(heard);
  }

  lemma FeedKeepsInv(w: World, count: nat)
    requires Inv(w) && Enabled(w, Feed(count))
    ensures Inv(After(w, Feed(count)))
    ensures count > 0 ==> After(w, Feed(count)).accounting.known == w.feedback[count - 1].known
  {
    hide ParseSequence;
    hide Printed;
    var n, heard := w.encoderTable.insertCount, Heard(w.feedback[..count]);
    FeedParses(w, count);
    AgreesFeed(w.accounting, w.feedback, n, count);
    ApplyAllKeepsAccounted(w.accounting, w.limits, heard, n);
    ApplyAllShrinks(w.accounting, heard, n);
  }

  /** Feedback is marked as rejected when its octets are no instructions or when one of them cannot be applied. */
  lemma RejectedMeaning(w: World, count: nat)
    requires Enabled(w, Feed(count))
    ensures var parsed := ParseSequence(Printed(Heard(w.feedback[..count])));
            After(w, Feed(count)).rejected <==>
              || w.rejected || parsed.Err?
              || ApplyAll(w.accounting, Instructions(parsed.value), w.encoderTable.insertCount).failure != None
  {
  }

  lemma {:induction false} ApplyAllShrinks(state: Outstanding, instructions: seq<Instruction>, insertCount: u64)
    ensures forall s :: s in ApplyAll(state, instructions, insertCount).state.sections ==> s in state.sections
    decreases |instructions|
  {
    if instructions != [] {
      var next := Apply(state, instructions[0], insertCount);
      if next.Ok? {
        ApplyAllShrinks(next.value, instructions[1..], insertCount);
      }
    }
  }

  lemma StepKeepsInv(w: World, step: Step)
    requires Inv(w) && Enabled(w, step)
    ensures Inv(After(w, step))
  {
    match step
    case ChangeTable(dropped, inserts) => ChangeKeepsInv(w, dropped, inserts);
    case Send(stream, required, references) => SendKeepsInv(w, stream, required, references);
    case DeliverChange => DeliverKeepsInv(w);
    case Decode(stream) => DecodeKeepsInv(w, stream);
    case DecodeUnreferenced(stream, required) => UnreferencedKeepsAll(w, stream, required);
    case Cancel(stream) => CancelKeepsInv(w, stream);
    case Report => ReportKeepsInv(w);
    case Feed(count) => FeedKeepsInv(w, count);
  }

  // ---- What every reachable state satisfies ----

  predicate Undecoded(w: World, s: Section) {
    s in w.transit && s.stream !in w.cancelled
  }

  /** Feedback is never rejected, and the four counts are always in this order. */
  predicate CountsOrdered(w: World) {
    && !w.rejected
    && w.accounting.known <= w.decoderKnown <= w.decoderTable.insertCount <= w.encoderTable.insertCount
  }

  /** No section the decoder may still decode names an entry its table has lost or, once decodable, has yet to get. */
  ghost predicate ReferencesFound(w: World) {
    forall s, r :: Undecoded(w, s) && r in s.references ==> Found(w, s, r)
  }

  predicate Found(w: World, s: Section, r: u64) {
    && w.decoderTable.dropped <= r
    && (s.required <= w.decoderTable.insertCount ==> r < w.decoderTable.insertCount)
  }

  /** The streams whose sections wait at the decoder for inserts. */
  function Waiting(w: World): set<u64> {
    set s | s in w.transit && s.stream !in w.cancelled && s.required > w.decoderTable.insertCount :: s.stream
  }

  ghost predicate Safe(w: World) {
    && CountsOrdered(w)
    && NamesLive(w)
    && ReferencesFound(w)
    && |Waiting(w)| <= w.limits.maximumBlocked
    && (if w.changes == [] then w.decoderTable == w.encoderTable else Enabled(w, DeliverChange))
  }

  /** A section that may still be decoded is still accounted for at the encoder. */
  lemma UndecodedIsOutstanding(w: World, s: Section)
    requires Inv(w) && Undecoded(w, s)
    ensures s in w.accounting.sections
  {
    var end := Drained(w.accounting, w.feedback, w.encoderTable.insertCount);
    assert s in Of(w.transit, s.stream);
    assert s in Of(end.sections, s.stream);
    DrainedShrinks(w.accounting, w.feedback, w.encoderTable.insertCount);
  }

  lemma InvFindsReferences(w: World)
    requires Inv(w)
    ensures ReferencesFound(w)
  {
    forall s, r | Undecoded(w, s) && r in s.references
      ensures Found(w, s, r)
    {
      UndecodedIsOutstanding(w, s);
      assert WellFormed(s) && r <= Largest(s.references);
    }
  }

  lemma InvBoundsWaiting(w: World)
    requires Inv(w)
    ensures |Waiting(w)| <= w.limits.maximumBlocked
  {
    DrainedShrinks(w.accounting, w.feedback, w.encoderTable.insertCount);
    forall stream | stream in Waiting(w)
      ensures stream in Blocked(w.accounting.sections, w.accounting.known)
    {
      var s :| s in w.transit && s.stream !in w.cancelled && s.required > w.decoderTable.insertCount
        && s.stream == stream;
      UndecodedIsOutstanding(w, s);
    }
    SubsetSize(Waiting(w), Blocked(w.accounting.sections, w.accounting.known));
  }

  lemma InvIsSafe(w: World)
    requires Inv(w)
    ensures Safe(w)
  {
    DrainedShrinks(w.accounting, w.feedback, w.encoderTable.insertCount);
    InvFindsReferences(w);
    InvBoundsWaiting(w);
    hide ReferencesFound;
    hide Waiting;
    hide Accounted;
  }

  predicate Runs(w: World, steps: seq<Step>)
    decreases |steps|
  {
    steps == [] || (Enabled(w, steps[0]) && Runs(After(w, steps[0]), steps[1..]))
  }

  function Final(w: World, steps: seq<Step>): World
    requires Runs(w, steps)
    decreases |steps|
  {
    if steps == [] then w else Final(After(w, steps[0]), steps[1..])
  }

  lemma {:induction false} RunKeepsInv(w: World, steps: seq<Step>)
    requires Inv(w) && Runs(w, steps)
    ensures Inv(Final(w, steps))
    decreases |steps|
  {
    if steps != [] {
      StepKeepsInv(w, steps[0]);
      RunKeepsInv(After(w, steps[0]), steps[1..]);
    }
  }

  /** Safety over whole runs: it holds after any interleaving of the steps of both endpoints. */
  lemma RunIsSafe(w: World, steps: seq<Step>)
    requires Initial(w) && Runs(w, steps)
    ensures Safe(Final(w, steps))
  {
    InitialInv(w);
    RunKeepsInv(w, steps);
    InvIsSafe(Final(w, steps));
  }

  /**
   * After any run, hearing the next messages is accepted and gives the count the decoder had when it sent the
   * last of them.
   */
  lemma RunFeedbackAgrees(w: World, steps: seq<Step>, count: nat)
    requires Initial(w) && Runs(w, steps) && 0 < count <= |Final(w, steps).feedback|
    ensures var end := Final(w, steps);
            var heard := After(end, Feed(count));
            && !heard.rejected
            && heard.accounting.known == end.feedback[count - 1].known
            && heard.feedback == end.feedback[count..]
  {
    InitialInv(w);
    RunKeepsInv(w, steps);
    FeedKeepsInv(Final(w, steps), count);
    FeedParses(Final(w, steps), count);
  }

  /** The decoder's own record of waiting streams always has room for a section of a well-behaved encoder. */
  lemma WaitingFits(w: World, steps: seq<Step>, waiting: map<u64, u64>, s: Section)
    requires Initial(w) && Runs(w, steps)
    requires var end := Final(w, steps);
             waiting.Keys <= Waiting(end) && Undecoded(end, s) && s.required > end.decoderTable.insertCount
    ensures QpackBlockedStreams.Registered(waiting, Final(w, steps).limits.maximumBlocked, s.stream, s.required).Ok?
  {
    RunIsSafe(w, steps);
    var end := Final(w, steps);
    if s.stream !in waiting {
      assert s.stream in Waiting(end);
      SubsetSize(waiting.Keys + {s.stream}, Waiting(end));
      assert |waiting.Keys + {s.stream}| == |waiting| + 1;
    }
  }
}
