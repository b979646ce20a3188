/**
 * RFC 9113 section 6.10: a header block is a HEADERS or PUSH_PROMISE frame and the CONTINUATION
 * frames that follow it on the same stream, with nothing in between.
 */
module Http2Sequence {
  import opened Machine
  import opened Http2Frame
  import opened Http2Fragments

  datatype SequenceError =
    | MalformedFragment(error: Http2ParseError)
    | UnexpectedContinuation(actual: u32)
    | WrongContinuationStream(expected: u32, actual: u32)
    | InterleavedFrame(expected: u32, actual: u32, actualType: byte)

  type Locked = Option<u32>

  datatype Observation = Observation(result: Result<Option<FragmentView>, SequenceError>, locked: Locked)

  /** What observing a frame reports, and the stream that is locked afterwards. */
  function Observed(locked: Locked, frame: seq<byte>): (o: Observation)
    requires IsFrame(frame)
    ensures o.result.Err? ==> o.locked == locked
    ensures o.result.Ok? && o.result.value.Some? ==> o.result.value.value.Valid() && o.result.value.value.frame == frame
  {
    if locked.Some? then
      if FrameType(frame) != CONTINUATION then
        Observation(Err(InterleavedFrame(locked.value, Stream(frame), FrameType(frame))), locked)
      else
        match ContinuationFromFrame(frame)
        case Err(e) => Observation(Err(MalformedFragment(e)), locked)
        case Ok(view) =>
          if Stream(frame) != locked.value then
            Observation(Err(WrongContinuationStream(locked.value, Stream(frame))), locked)
          else Observation(Ok(Some(view)), if EndsHeaders(frame) then None else locked)
    else if FrameType(frame) == HEADERS || FrameType(frame) == PUSH_PROMISE then
      match FragmentFromFrame(frame)
      case Err(e) => Observation(Err(MalformedFragment(e)), None)
      case Ok(view) => Observation(Ok(Some(view)), if EndsHeaders(frame) then None else Some(Stream(frame)))
    else if FrameType(frame) == CONTINUATION then
      match ContinuationFromFrame(frame)
      case Err(e) => Observation(Err(MalformedFragment(e)), None)
      case Ok(_) => Observation(Err(UnexpectedContinuation(Stream(frame))), None)
    else Observation(Ok(None), None)
  }

  /** What an accepted frame was: of no concern to header blocks, or the fragment that it parses to. */
  lemma ObservedMeaning(locked: Locked, frame: seq<byte>)
    requires IsFrame(frame) && Observed(locked, frame).result.Ok?
    ensures match Observed(locked, frame).result.value
            case None => FrameType(frame) !in {HEADERS, PUSH_PROMISE, CONTINUATION} && locked == None
            case Some(view) =>
              && FrameType(frame) in {HEADERS, PUSH_PROMISE, CONTINUATION} && FragmentFromFrame(frame) == Ok(view)
              && (locked.Some? <==> FrameType(frame) == CONTINUATION)
              && (locked.Some? ==> locked.value == Stream(frame))
  {
  }

  /** Every refusal of a frame names a fault that is there. */
  lemma ObserveRefused(locked: Locked, frame: seq<byte>)
    requires IsFrame(frame) && Observed(locked, frame).result.Err?
    ensures match Observed(locked, frame).result.error
            case MalformedFragment(e) =>
              FrameType(frame) in {HEADERS, PUSH_PROMISE, CONTINUATION} && FragmentFromFrame(frame) == Err(e)
            case UnexpectedContinuation(actual) =>
              locked == None && FrameType(frame) == CONTINUATION && actual == Stream(frame)
            case WrongContinuationStream(expected, actual) =>
              locked == Some(expected) && FrameType(frame) == CONTINUATION && actual == Stream(frame) != expected
            case InterleavedFrame(expected, actual, actualType) =>
              && locked == Some(expected) && actual == Stream(frame)
              && actualType == FrameType(frame) != CONTINUATION
  {
  }

  class Http2HeaderBlockSequence {
    var lockedStream: Locked

    constructor ()
      ensures lockedStream == None
    {
      lockedStream := None;
    }

    /** Observes one frame; on an error the state is as it was. */
    method Observe(frame: seq<byte>) returns (r: Result<Option<FragmentView>, SequenceError>)
      requires IsFrame(frame)
      modifies this
      ensures Observation(r, lockedStream) == Observed(old(lockedStream), frame)
    {
      if lockedStream.Some? {
        r := ObserveOpen(frame, lockedStream.value);
        return;
      }
      if FrameType(frame) == HEADERS || FrameType(frame) == PUSH_PROMISE {
        var view := FragmentFromFrame(frame);
        if view.Err? {
          return Err(MalformedFragment(view.error));
        }
        if !EndsHeaders(frame) {
          lockedStream := Some(Stream(frame));
        }
        return Ok(Some(view.value));
      }
      if FrameType(frame) == CONTINUATION {
        var view := ContinuationFromFrame(frame);
        if view.Err? {
          return Err(MalformedFragment(view.error));
        }
        return Err(UnexpectedContinuation(Stream(frame)));
      }
      return Ok(None);
    }

    method ObserveOpen(frame: seq<byte>, expected: u32) returns (r: Result<Option<FragmentView>, SequenceError>)
      requires IsFrame(frame) && lockedStream == Some(expected)
      modifies this
      ensures Observation(r, lockedStream) == Observed(old(lockedStream), frame)
    {
      if FrameType(frame) != CONTINUATION {
        return Err(InterleavedFrame(expected, Stream(frame), FrameType(frame)));
      }
      var view := ContinuationFromFrame(frame);
      if view.Err? {
        return Err(MalformedFragment(view.error));
      }
      if Stream(frame) != expected {
        return Err(WrongContinuationStream(expected, Stream(frame)));
      }
      if EndsHeaders(frame) {
        lockedStream := None;
      }
      return Ok(Some(view.value));
    }
  }

  // ---- Whole traces ----

  predicate AllFrames(trace: seq<seq<byte>>) {
    forall f :: f in trace ==> IsFrame(f)
  }

  /** The state after a trace that is accepted frame by frame, or nothing if one is refused. */
  function Run(trace: seq<seq<byte>>): Option<Locked>
    requires AllFrames(trace)
    decreases |trace|
  {
    if trace == [] then Some(None)
    else
      var n := |trace| - 1;
      assert trace == trace[..n] + [trace[n]];
      match Run(trace[..n])
      case None => None
      case Some(locked) =>
        var o := Observed(locked, trace[n]);
        if o.result.Ok? then Some(o.locked) else None
  }

  predicate Unrelated(frame: seq<byte>) {
    IsFrame(frame) && FrameType(frame) !in {HEADERS, PUSH_PROMISE, CONTINUATION}
  }

  /** A frame that may begin a header block. */
  predicate Begins(frame: seq<byte>) {
    && IsFrame(frame) && (FrameType(frame) == HEADERS || FrameType(frame) == PUSH_PROMISE)
    && FragmentFromFrame(frame).Ok?
  }

  /** A frame that may continue one. */
  predicate Continues(frame: seq<byte>, stream: u32) {
    IsFrame(frame) && ContinuationFromFrame(frame).Ok? && Stream(frame) == stream
  }

  /** A header block that has begun and has not ended. */
  predicate OpenBlock(frames: seq<seq<byte>>) {
    && frames != [] && Begins(frames[0])
    && (forall k :: 1 <= k < |frames| ==> Continues(frames[k], Stream(frames[0])))
    && forall k :: 0 <= k < |frames| ==> IsFrame(frames[k]) && !EndsHeaders(frames[k])
  }

  /** A whole header block: it ends with its first END_HEADERS. */
  predicate WholeBlock(frames: seq<seq<byte>>) {
    && frames != [] && Begins(frames[0])
    && (forall k :: 1 <= k < |frames| ==> Continues(frames[k], Stream(frames[0])))
    && (forall k :: 0 <= k < |frames| - 1 ==> IsFrame(frames[k]) && !EndsHeaders(frames[k]))
    && IsFrame(frames[|frames| - 1]) && EndsHeaders(frames[|frames| - 1])
  }

  /** What an idle sequence may be followed by: one unrelated frame, or one whole block. */
  predicate Unit(frames: seq<seq<byte>>) {
    (|frames| == 1 && Unrelated(frames[0])) || WholeBlock(frames)
  }

  function Concat<T>(units: seq<seq<T>>): (all: seq<T>)
    decreases |units|
  {
    if units == [] then [] else Concat(units[..|units| - 1]) + units[|units| - 1]
  }

  /** The grammar of section 6.10: units, and then possibly a block that is still open. */
  predicate Grammar(units: seq<seq<seq<byte>>>, rest: seq<seq<byte>>) {
    (forall u :: u in units ==> Unit(u)) && (rest == [] || OpenBlock(rest))
  }

  function LockedBy(rest: seq<seq<byte>>): Locked
    requires rest == [] || OpenBlock(rest)
  {
    if rest == [] then None else Some(Stream(rest[0]))
  }

  lemma RunSnoc(trace: seq<seq<byte>>, frame: seq<byte>)
    requires AllFrames(trace) && IsFrame(frame)
    ensures AllFrames(trace + [frame])
    ensures Run(trace).None? ==> Run(trace + [frame]).None?
    ensures Run(trace).Some? ==>
              var o := Observed(Run(trace).value, frame);
              Run(trace + [frame]) == if o.result.Ok? then Some(o.locked) else None
  {
    var all := trace + [frame];
    assert all[..|all| - 1] == trace;
  }

  /** An open block after an idle sequence is accepted and locks its stream. */
  lemma {:induction false} RunOpen(before: seq<seq<byte>>, open: seq<seq<byte>>)
    requires AllFrames(before) && Run(before) == Some(None) && OpenBlock(open)
    ensures AllFrames(before + open) && Run(before + open) == Some(Some(Stream(open[0])))
    decreases |open|
  {
    var n := |open| - 1;
    var last := open[n];
    assert open == open[..n] + [last];
    if n == 0 {
      RunSnoc(before, last);
      assert before + open == before + [last];
    } else {
      RunOpen(before, open[..n]);
      assert Continues(last, Stream(open[0]));
      RunSnoc(before + open[..n], last);
      assert before + open == before + open[..n] + [last];
    }
  }

  /** A unit after an idle sequence is accepted and leaves it idle. */
  lemma RunUnit(before: seq<seq<byte>>, unit: seq<seq<byte>>)
    requires AllFrames(before) && Run(before) == Some(None) && Unit(unit)
    ensures AllFrames(before + unit) && Run(before + unit) == Some(None)
  {
    hide FragmentFromFrame;
    hide ContinuationFromFrame;
    hide Run;
    var n := |unit| - 1;
    var last := unit[n];
    if n == 0 {
      RunSnoc(before, last);
      assert unit == [last];
    } else {
      assert OpenBlock(unit[..n]);
      RunOpen(before, unit[..n]);
      assert Continues(last, Stream(unit[0]));
      RunSnoc(before + unit[..n], last);
      assert before + unit == before + unit[..n] + [last];
    }
  }

  lemma {:induction false} RunUnits(units: seq<seq<seq<byte>>>)
    requires forall u :: u in units ==> Unit(u)
    ensures AllFrames(Concat(units)) && Run(Concat(units)) == Some(None)
    decreases |units|
  {
    if units != [] {
      var n := |units| - 1;
      RunUnits(units[..n]);
      RunUnit(Concat(units[..n]), units[n]);
    }
  }

  /** Everything the grammar writes is accepted. */
  lemma GrammarAccepted(units: seq<seq<seq<byte>>>, rest: seq<seq<byte>>)
    requires Grammar(units, rest)
    ensures AllFrames(Concat(units) + rest) && Run(Concat(units) + rest) == Some(LockedBy(rest))
  {
    RunUnits(units);
    if rest == [] {
      assert Concat(units) + rest == Concat(units);
    } else {
      RunOpen(Concat(units), rest);
    }
  }

  /** Everything accepted is written by the grammar, in the state that the machine is in. */
  lemma {:induction false} AcceptedGrammar(trace: seq<seq<byte>>)
    returns (units: seq<seq<seq<byte>>>, rest: seq<seq<byte>>)
    requires AllFrames(trace) && Run(trace).Some?
    ensures Grammar(units, rest) && trace == Concat(units) + rest && Run(trace).value == LockedBy(rest)
    decreases |trace|
  {
    if trace == [] {
      units, rest := [], [];
    } else {
      var n := |trace| - 1;
      var last := trace[n];
      assert trace == trace[..n] + [last];
      units, rest := AcceptedGrammar(trace[..n]);
      units, rest := ExtendGrammar(units, rest, last);
    }
  }

  /** One more accepted frame: a unit of its own, the end of the open block, or more of it. */
  lemma ExtendGrammar(units: seq<seq<seq<byte>>>, rest: seq<seq<byte>>, frame: seq<byte>)
    returns (units': seq<seq<seq<byte>>>, rest': seq<seq<byte>>)
    requires Grammar(units, rest) && IsFrame(frame) && Observed(LockedBy(rest), frame).result.Ok?
    ensures Grammar(units', rest') && Concat(units') + rest' == Concat(units) + rest + [frame]
    ensures Observed(LockedBy(rest), frame).locked == LockedBy(rest')
  {
    var block := rest + [frame];
    if Unrelated(frame) || EndsHeaders(frame) {
      units', rest' := units + [block], [];
      assert Unit(block);
      assert units'[..|units|] == units;
    } else {
      units', rest' := units, block;
      assert OpenBlock(block);
    }
  }

  /** A trace is accepted exactly when it is of the grammar, and the machine is idle exactly when no block is open. */
  lemma AcceptExact(trace: seq<seq<byte>>, locked: Locked)
    requires AllFrames(trace)
    ensures Run(trace) == Some(locked) <==>
            exists units, rest :: Grammar(units, rest) && trace == Concat(units) + rest && LockedBy(rest) == locked
  {
    if Run(trace) == Some(locked) {
      var units, rest := AcceptedGrammar(trace);
    }
    if units, rest :| Grammar(units, rest) && trace == Concat(units) + rest && LockedBy(rest) == locked {
      GrammarAccepted(units, rest);
    }
  }

  // ---- Fragmentation and reassembly ----

  /** The field-block octets of a trace's fragments, in order. */
  function Reassembled(frames: seq<seq<byte>>): (block: seq<byte>)
    requires forall f :: f in frames ==> IsFrame(f) && FragmentFromFrame(f).Ok?
  {
    if frames == [] then [] else FragmentFromFrame(frames[0]).value.FieldBlock() + Reassembled(frames[1..])
  }

  /** A header block split for sending: one HEADERS or PUSH_PROMISE and CONTINUATIONs, ending where END_HEADERS is. */
  predicate Split(fragments: seq<Fragment>, maximum: nat) {
    && fragments != []
    && (forall k :: 0 <= k < |fragments| ==> fragments[k].Refused(maximum) == None)
    && (forall k :: 0 <= k < |fragments| ==> (fragments[k].ContinuationFragment? <==> k > 0))
    && (forall k :: 0 <= k < |fragments| ==> fragments[k].stream == fragments[0].stream)
    && forall k :: 0 <= k < |fragments| ==> (HasFlag(fragments[k].flags, END_HEADERS) <==> k == |fragments| - 1)
  }

  predicate AllBuildable(fragments: seq<Fragment>, maximum: nat) {
    forall k :: 0 <= k < |fragments| ==> fragments[k].Refused(maximum) == None
  }

  function Built(fragments: seq<Fragment>, maximum: nat): (frames: seq<seq<byte>>)
    requires AllBuildable(fragments, maximum)
    ensures |frames| == |fragments|
  {
    seq(|fragments|, k requires 0 <= k < |fragments| => fragments[k].Octets())
  }

  function Blocks(fragments: seq<Fragment>): seq<byte> {
    if fragments == [] then [] else fragments[0].block + Blocks(fragments[1..])
  }

  function Wire(frames: seq<seq<byte>>): seq<byte> {
    if frames == [] then [] else frames[0] + Wire(frames[1..])
  }

  /** The octets on the wire parse into the frames that were built. */
  lemma {:induction false} WireParses(fragments: seq<Fragment>, maximum: nat)
    requires AllBuildable(fragments, maximum)
    ensures ParseFrames(Wire(Built(fragments, maximum)), maximum) == Ok(Built(fragments, maximum))
    decreases |fragments|
  {
    hide FragmentFromFrame;
    hide BuiltView;
    hide HasFlag;
    if fragments != [] {
      var frames := Built(fragments, maximum);
      var frame := frames[0];
      assert frames[1..] == Built(fragments[1..], maximum);
      BuiltParses(fragments[0]);
      FrameRoundTrip(frame, Wire(frames[1..]), maximum);
      WireParses(fragments[1..], maximum);
      assert Wire(frames)[|frame|..] == Wire(frames[1..]);
      assert frames == [frame] + frames[1..];
    }
  }

  lemma {:induction false} BlocksReassembled(fragments: seq<Fragment>, maximum: nat)
    requires AllBuildable(fragments, maximum)
    ensures forall f :: f in Built(fragments, maximum) ==> IsFrame(f) && FragmentFromFrame(f).Ok?
    ensures Reassembled(Built(fragments, maximum)) == Blocks(fragments)
    decreases |fragments|
  {
    hide FragmentFromFrame;
    hide IsFrame;
    hide BuiltView;
    if fragments != [] {
      var frames := Built(fragments, maximum);
      assert frames[1..] == Built(fragments[1..], maximum);
      assert frames == [frames[0]] + frames[1..];
      BuiltParses(fragments[0]);
      BlocksReassembled(fragments[1..], maximum);
    }
  }

  lemma SplitIsWhole(fragments: seq<Fragment>, maximum: nat)
    requires Split(fragments, maximum)
    ensures WholeBlock(Built(fragments, maximum))
  {
    hide HeadersFromFrame;
    hide PushPromiseFromFrame;
    hide BuiltView;
    hide HasFlag;
    hide IsFrame;
    var frames := Built(fragments, maximum);
    forall k | 0 <= k < |fragments|
      ensures IsFrame(frames[k]) && FragmentFromFrame(frames[k]).Ok? && Stream(frames[k]) == fragments[0].stream
      ensures FrameType(frames[k]) == fragments[k].Type()
      ensures EndsHeaders(frames[k]) <==> k == |fragments| - 1
    {
      BuiltParses(fragments[k]);
    }
  }

  /**
   * Split any header block in any way, with any padding or priority; build the frames, send their
   * octets, parse and observe them: every frame is accepted, the machine is idle again, and the
   * fragments joined are the block.
   */
  lemma FragmentationRoundTrip(fragments: seq<Fragment>, maximum: nat)
    requires Split(fragments, maximum)
    ensures ParseFrames(Wire(Built(fragments, maximum)), maximum) == Ok(Built(fragments, maximum))
    ensures AllFrames(Built(fragments, maximum)) && Run(Built(fragments, maximum)) == Some(None)
    ensures (forall f :: f in Built(fragments, maximum) ==> FragmentFromFrame(f).Ok?)
    ensures Reassembled(Built(fragments, maximum)) == Blocks(fragments)
  {
    var frames := Built(fragments, maximum);
    WireParses(fragments, maximum);
    BlocksReassembled(fragments, maximum);
    SplitIsWhole(fragments, maximum);
    RunUnit([], frames);
    assert [] + frames == frames;
  }
}
