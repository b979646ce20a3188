/** Header-block fragments: their parsers, their in-place builders, and the round trip between them. */
module Http2Fragments {
  import opened Machine
  import opened Http2Frame

  /** A validated fragment and where its field block lies in the payload. */
  datatype FragmentView =
    | HeadersView(frame: seq<byte>, start: nat, end: nat, priority: Option<Priority>)
    | PushPromiseView(frame: seq<byte>, start: nat, end: nat, promised: u32)
    | ContinuationView(frame: seq<byte>)
  {
    predicate Valid() {
      IsFrame(frame) && (ContinuationView? || start <= end <= |Http2Frame.Payload(frame)|)
    }

    /** The field-block octets, without pad length, priority, promised stream and padding. */
    function FieldBlock(): seq<byte>
      requires Valid()
    {
      if ContinuationView? then Http2Frame.Payload(frame) else Http2Frame.Payload(frame)[start..end]
    }
  }

  // ---- Parsers ----

  function LayoutError(frame: seq<byte>, expected: byte): Option<Http2ParseError>
    requires IsFrame(frame)
  {
    if FrameType(frame) != expected then Some(WrongFrameType(expected, FrameType(frame)))
    else if Stream(frame) == 0 then Some(ZeroStream)
    else None
  }

  predicate IsPadded(frame: seq<byte>)
    requires IsFrame(frame)
  {
    HasFlag(Flags(frame), PADDED)
  }

  /** A pad length must be there, and must leave room for itself. */
  function PaddingError(frame: seq<byte>): Option<Http2ParseError>
    requires IsFrame(frame)
  {
    var payload := Payload(frame);
    if !IsPadded(frame) then None
    else if payload == [] then Some(InvalidPadding(0, 0))
    else if payload[0] >= |payload| then Some(InvalidPadding(payload[0], |payload|))
    else None
  }

  function PaddingLength(frame: seq<byte>): (n: nat)
    requires IsFrame(frame) && PaddingError(frame) == None
    ensures (if IsPadded(frame) then 1 else 0) + n <= |Payload(frame)|
  {
    if IsPadded(frame) then Payload(frame)[0] else 0
  }

  function ParsePriority(octets: seq<byte>): Priority
    requires |octets| == 5
  {
    Priority(FromBigEndian32(octets[..4]), octets[4])
  }

  function HeadersFromFrame(frame: seq<byte>): (r: Result<FragmentView, Http2ParseError>)
    requires IsFrame(frame)
    ensures r.Ok? ==> r.value.Valid() && r.value.HeadersView? && r.value.frame == frame
    ensures r.Ok? ==> FrameType(frame) == HEADERS && Stream(frame) != 0
  {
    if LayoutError(frame, HEADERS).Some? then Err(LayoutError(frame, HEADERS).value)
    else if PaddingError(frame).Some? then Err(PaddingError(frame).value)
    else
      var payload := Payload(frame);
      var start := if IsPadded(frame) then 1 else 0;
      var end := |payload| - PaddingLength(frame);
      if !HasFlag(Flags(frame), PRIORITY) then Ok(HeadersView(frame, start, end, None))
      else if end - start < 5 then Err(MalformedPayload(5, end - start))
      else Ok(HeadersView(frame, start + 5, end, Some(ParsePriority(payload[start..start + 5]))))
  }

  function PushPromiseFromFrame(frame: seq<byte>): (r: Result<FragmentView, Http2ParseError>)
    requires IsFrame(frame)
    ensures r.Ok? ==> r.value.Valid() && r.value.PushPromiseView? && r.value.frame == frame
    ensures r.Ok? ==> FrameType(frame) == PUSH_PROMISE && Stream(frame) != 0
  {
    if LayoutError(frame, PUSH_PROMISE).Some? then Err(LayoutError(frame, PUSH_PROMISE).value)
    else if PaddingError(frame).Some? then Err(PaddingError(frame).value)
    else
      var payload := Payload(frame);
      var start := if IsPadded(frame) then 1 else 0;
      var end := |payload| - PaddingLength(frame);
      if end - start < 4 then Err(MalformedPayload(4, end - start))
      else
        var promised := FromBigEndian32(payload[start..start + 4]);
        if StreamValue(promised) == 0 then Err(ZeroPromisedStream)
        else Ok(PushPromiseView(frame, start + 4, end, promised))
  }

  function ContinuationFromFrame(frame: seq<byte>): (r: Result<FragmentView, Http2ParseError>)
    requires IsFrame(frame)
    ensures r.Ok? ==> r.value.Valid() && r.value.ContinuationView? && r.value.frame == frame
    ensures r.Ok? ==> FrameType(frame) == CONTINUATION && Stream(frame) != 0
  {
    if LayoutError(frame, CONTINUATION).Some? then Err(LayoutError(frame, CONTINUATION).value)
    else Ok(ContinuationView(frame))
  }

  function FragmentFromFrame(frame: seq<byte>): (r: Result<FragmentView, Http2ParseError>)
    requires IsFrame(frame)
    ensures r.Ok? ==> r.value.Valid() && r.value.frame == frame
  {
    if FrameType(frame) == HEADERS then HeadersFromFrame(frame)
    else if FrameType(frame) == PUSH_PROMISE then PushPromiseFromFrame(frame)
    else ContinuationFromFrame(frame)
  }

  // ---- What is accepted ----

  /** A payload in its four pieces: the pad length, what stands before the block, the block, and as much padding. */
  datatype Layout = Layout(pad: seq<byte>, head: seq<byte>, block: seq<byte>, padding: seq<byte>) {
    function Start(): nat { |pad| + |head| }

    function End(): nat { |pad| + |head| + |block| }
  }

  /** The pieces of this frame's payload, when its flags ask for padding and its head has this length. */
  predicate LaidOut(frame: seq<byte>, l: Layout, head: nat)
    requires IsFrame(frame)
  {
    && Payload(frame) == l.pad + (l.head + (l.block + l.padding)) && |l.head| == head
    && if Flags(frame) / 8 % 2 == 1 then |l.pad| == 1 && |l.padding| == l.pad[0] else l.pad == [] && l.padding == []
  }

  lemma LayoutParts(frame: seq<byte>, l: Layout, head: nat)
    requires IsFrame(frame) && LaidOut(frame, l, head)
    ensures PaddingError(frame) == None && PaddingLength(frame) == |l.padding|
    ensures |Payload(frame)| == l.End() + |l.padding| && l.Start() == |l.pad| + head
    ensures |l.pad| == if IsPadded(frame) then 1 else 0
    ensures Payload(frame)[|l.pad|..l.Start()] == l.head
  {
    assert l.pad != [] ==> Payload(frame)[0] == l.pad[0];
  }

  /** Any payload with room for its padding and its head can be laid out. */
  lemma LayoutOf(frame: seq<byte>, head: nat) returns (l: Layout)
    requires IsFrame(frame) && PaddingError(frame) == None
    requires (if IsPadded(frame) then 1 else 0) + head + PaddingLength(frame) <= |Payload(frame)|
    ensures LaidOut(frame, l, head)
  {
    var payload, start := Payload(frame), if IsPadded(frame) then 1 else 0;
    var end := |payload| - PaddingLength(frame);
    l := Layout(payload[..start], payload[start..start + head], payload[start + head..end], payload[end..]);
  }

  predicate Prioritized(frame: seq<byte>)
    requires IsFrame(frame)
  {
    Flags(frame) / 32 % 2 == 1
  }

  /** The view that a layout of a HEADERS payload gives. */
  predicate HeadersLaidOut(frame: seq<byte>, view: FragmentView, l: Layout)
    requires IsFrame(frame)
  {
    && LaidOut(frame, l, if Prioritized(frame) then 5 else 0)
    && view == HeadersView(frame, l.Start(), l.End(),
                           if Prioritized(frame) then Some(ParsePriority(l.head)) else None)
  }

  /**
   * A HEADERS frame is accepted exactly when its payload can be laid out: padding if its flags say so, five octets of
   * priority if they say so, and a field block, which is what the view shows. The octets of the padding do not matter.
   */
  lemma HeadersExact(frame: seq<byte>, view: FragmentView)
    requires IsFrame(frame)
    ensures HeadersFromFrame(frame) == Ok(view) <==>
            FrameType(frame) == HEADERS && Stream(frame) != 0 && exists l :: HeadersLaidOut(frame, view, l)
  {
    var head := if Prioritized(frame) then 5 else 0;
    if HeadersFromFrame(frame) == Ok(view) {
      var l := LayoutOf(frame, head);
      LayoutParts(frame, l, head);
      assert HeadersLaidOut(frame, view, l);
    }
    if l :| HeadersLaidOut(frame, view, l) {
      LayoutParts(frame, l, head);
    }
  }

  predicate PromiseLaidOut(frame: seq<byte>, view: FragmentView, l: Layout)
    requires IsFrame(frame)
  {
    && LaidOut(frame, l, 4) && StreamValue(FromBigEndian32(l.head)) != 0
    && view == PushPromiseView(frame, l.Start(), l.End(), FromBigEndian32(l.head))
  }

  /** The same of PUSH_PROMISE, whose head is the promised stream. */
  lemma PushPromiseExact(frame: seq<byte>, view: FragmentView)
    requires IsFrame(frame)
    ensures PushPromiseFromFrame(frame) == Ok(view) <==>
            FrameType(frame) == PUSH_PROMISE && Stream(frame) != 0 && exists l :: PromiseLaidOut(frame, view, l)
  {
    if PushPromiseFromFrame(frame) == Ok(view) {
      var l := LayoutOf(frame, 4);
      LayoutParts(frame, l, 4);
      assert PromiseLaidOut(frame, view, l);
    }
    if l :| PromiseLaidOut(frame, view, l) {
      LayoutParts(frame, l, 4);
    }
  }

  /** A CONTINUATION frame is all block. */
  lemma ContinuationExact(frame: seq<byte>, view: FragmentView)
    requires IsFrame(frame)
    ensures ContinuationFromFrame(frame) == Ok(view) <==>
            FrameType(frame) == CONTINUATION && Stream(frame) != 0 && view == ContinuationView(frame)
  {
  }

  /** The block of a view is the block of the layout. */
  lemma BlockLaidOut(frame: seq<byte>, view: FragmentView, l: Layout)
    requires IsFrame(frame) && (HeadersLaidOut(frame, view, l) || PromiseLaidOut(frame, view, l))
    ensures view.Valid() && view.FieldBlock() == l.block
  {
    Middle(l.pad, l.head, l.block, l.padding);
    hide IsFrame;
    hide Payload;
    hide StreamValue;
  }

  lemma Middle<T>(a: seq<T>, b: seq<T>, c: seq<T>, d: seq<T>)
    ensures var all := a + (b + (c + d));
            |all| == |a| + |b| + |c| + |d| && all[|a| + |b|..|a| + |b| + |c|] == c
  {
    assert a + (b + (c + d)) == (a + b) + (c + d);
  }

  /** Why a fragment is refused, by the octets of its frame. */
  lemma FragmentRefused(frame: seq<byte>)
    requires IsFrame(frame) && FragmentFromFrame(frame).Err?
    ensures var payload, padded := Payload(frame), Flags(frame) / 8 % 2 == 1;
            match FragmentFromFrame(frame).error
            case WrongFrameType(expected, actual) => expected == 9 && actual == frame[3] && actual !in {1, 5, 9}
            case ZeroStream => FromBigEndian32(frame[5..9]) in {0, 0x8000_0000}
            case InvalidPadding(length, available) =>
              && frame[3] in {1, 5} && padded && available == |payload|
              && if payload == [] then length == 0 else length == payload[0] >= |payload|
            case MalformedPayload(required, available) =>
              && available < required == (if frame[3] == 1 then 5 else 4) && (frame[3] == 1 ==> Prioritized(frame))
              && available == |payload| - (if padded then 1 + (payload[0] as int) else 0)
            case ZeroPromisedStream => frame[3] == 5
            case _ => false
  {
  }

  // ---- What a builder returns ----

  /** The view of a frame that a builder makes from what it was given. */
  function ViewOf(frame: seq<byte>, f: Fragment): FragmentView {
    var start := |f.PadField()| + |f.Section()|;
    var end := start + |f.block|;
    match f
    case HeadersFragment(_, _, _, priority, _) => HeadersView(frame, start, end, priority)
    case PushPromiseFragment(_, _, promised, _, _) => PushPromiseView(frame, start, end, promised)
    case ContinuationFragment(_, _, _) => ContinuationView(frame)
  }

  function BuiltView(f: Fragment): FragmentView
    requires f.Buildable()
  {
    ViewOf(f.Octets(), f)
  }

  /** A payload in its sections. */
  predicate Laid(payload: seq<byte>, f: Fragment) {
    var start := |f.PadField()| + |f.Section()|;
    var end := start + |f.block|;
    && |payload| == end + |f.PadOctets()|
    && (f.Padding().Some? ==> payload[0] == f.Padding().value)
    && payload[|f.PadField()|..start] == f.Section()
    && payload[start..end] == f.block
  }

  /** A frame with the header and the payload of a fragment. */
  predicate Carries(frame: seq<byte>, f: Fragment) {
    && IsFrame(frame) && FrameType(frame) == f.Type() && RawStream(frame) == f.stream
    && StreamValue(f.stream) == f.stream != 0
    && (f.ContinuationFragment? || (IsPadded(frame) <==> f.Padding().Some?))
    && (f.HeadersFragment? ==> (HasFlag(Flags(frame), PRIORITY) <==> f.priority.Some?))
    && (EndsHeaders(frame) <==> HasFlag(f.flags, END_HEADERS))
    && Laid(Payload(frame), f)
  }

  lemma PayloadLaid(f: Fragment)
    ensures Laid(f.Payload(), f)
  {
    var a, b := f.PadField() + f.Section(), f.block + f.PadOctets();
    assert f.Payload() == a + b;
    assert f.Payload()[|f.PadField()|..|a|] == a[|f.PadField()|..];
    assert f.Padding().Some? ==> f.Payload()[0] == f.PadField()[0];
  }

  /** A frame with the header and the payload that a builder writes. */
  predicate HasHeader(frame: seq<byte>, f: Fragment) {
    && IsFrame(frame) && FrameType(frame) == f.Type() && RawStream(frame) == f.stream
    && Flags(frame) == f.WireFlags() && Payload(frame) == f.Payload()
  }

  lemma BuiltHeader(f: Fragment)
    requires f.Buildable()
    ensures HasHeader(f.Octets(), f)
  {
    f.FlagsOnWire();
    FrameHeader(f.Type(), f.WireFlags(), f.stream, f.Payload());
    hide IsFrame;
    hide FrameOctets;
  }

  lemma HeaderCarries(frame: seq<byte>, f: Fragment)
    requires f.Buildable() && HasHeader(frame, f)
    ensures Carries(frame, f)
  {
    f.FlagsOnWire();
    PayloadLaid(f);
    hide Laid;
    hide HasFlag;
    hide IsFrame;
  }

  lemma BuiltCarries(f: Fragment)
    requires f.Buildable()
    ensures Carries(f.Octets(), f)
  {
    BuiltHeader(f);
    hide HasHeader;
    hide Carries;
    HeaderCarries(f.Octets(), f);
  }

  lemma CarriedPadding(frame: seq<byte>, f: Fragment)
    requires Carries(frame, f) && !f.ContinuationFragment?
    ensures PaddingError(frame) == None && PaddingLength(frame) == |f.PadOctets()|
    ensures LayoutError(frame, f.Type()) == None
  {
  }

  lemma CarriedHeaders(frame: seq<byte>, f: Fragment)
    requires Carries(frame, f) && f.HeadersFragment?
    ensures HeadersFromFrame(frame) == Ok(ViewOf(frame, f))
  {
    CarriedPadding(frame, f);
    hide PaddingError;
    hide LayoutError;
    hide PaddingLength;
    hide HasFlag;
    if f.priority.Some? {
      PriorityRoundTrip(f.priority.value);
    }
  }

  lemma CarriedPromise(frame: seq<byte>, f: Fragment)
    requires Carries(frame, f) && f.PushPromiseFragment? && StreamValue(f.promised) != 0
    ensures PushPromiseFromFrame(frame) == Ok(ViewOf(frame, f))
  {
    CarriedPadding(frame, f);
    hide PaddingError;
    hide LayoutError;
    hide PaddingLength;
    hide HasFlag;
    BigEndian32RoundTrip(f.promised);
  }

  lemma CarriedBlock(frame: seq<byte>, f: Fragment)
    requires Carries(frame, f)
    ensures ViewOf(frame, f).Valid() && ViewOf(frame, f).FieldBlock() == f.block
  {
    hide HasFlag;
    if f.ContinuationFragment? {
      assert Payload(frame) == Payload(frame)[0..|f.block|];
    }
  }

  lemma CarriedParses(frame: seq<byte>, f: Fragment)
    requires Carries(frame, f) && (f.PushPromiseFragment? ==> StreamValue(f.promised) != 0)
    ensures IsFrame(frame) && FragmentFromFrame(frame) == Ok(ViewOf(frame, f))
    ensures FrameType(frame) == f.Type() && Stream(frame) == f.stream
    ensures EndsHeaders(frame) <==> HasFlag(f.flags, END_HEADERS)
  {
    hide Laid;
    hide HasFlag;
    hide HeadersFromFrame;
    hide PushPromiseFromFrame;
    if f.HeadersFragment? {
      CarriedHeaders(frame, f);
    } else if f.PushPromiseFragment? {
      CarriedPromise(frame, f);
    }
  }

  /** The frame that a builder writes is parsed to the view that the builder returns, block included. */
  lemma BuiltParses(f: Fragment)
    requires f.Buildable()
    ensures IsFrame(f.Octets()) && FragmentFromFrame(f.Octets()) == Ok(BuiltView(f))
    ensures BuiltView(f).Valid() && BuiltView(f).FieldBlock() == f.block
    ensures FrameType(f.Octets()) == f.Type() && Stream(f.Octets()) == f.stream
    ensures EndsHeaders(f.Octets()) <==> HasFlag(f.flags, END_HEADERS)
  {
    BuiltCarries(f);
    hide Carries;
    hide FragmentFromFrame;
    hide HasFlag;
    CarriedParses(f.Octets(), f);
    CarriedBlock(f.Octets(), f);
  }

  lemma PriorityRoundTrip(p: Priority)
    ensures ParsePriority(p.Octets()) == p
  {
    assert p.Octets()[..4] == BigEndian32(p.rawDependency);
    BigEndian32RoundTrip(p.rawDependency);
  }

  // ---- Builders ----

  /** Checks the size of a payload and writes the frame header before it. */
  method WriteEnvelope(buffer: array<byte>, length: nat, frameType: byte, flags: byte, raw: u32, maximum: nat)
    returns (r: Result<nat, Http2BuildError>)
    modifies buffer
    ensures var limit := Min(maximum, MAXIMUM_PAYLOAD);
            r == if length > limit then Err(PayloadTooLarge(limit, length))
                 else if buffer.Length < HEADER_LENGTH + length
                   then Err(FrameBufferTooShort(HEADER_LENGTH + length, buffer.Length))
                 else Ok(HEADER_LENGTH + length)
    ensures r.Err? ==> buffer[..] == old(buffer[..])
    ensures r.Ok? ==> length <= MAXIMUM_PAYLOAD && r.value <= buffer.Length
                      && buffer[..] == Splice(old(buffer[..]), 0, Envelope(length, frameType, flags, raw))
  {
    var limit := Min(maximum, MAXIMUM_PAYLOAD);
    if length > limit {
      return Err(PayloadTooLarge(limit, length));
    }
    var required := HEADER_LENGTH + length;
    if buffer.Length < required {
      return Err(FrameBufferTooShort(required, buffer.Length));
    }
    SpliceAppend(buffer[..], 0, BigEndian24(length) + [frameType, flags], BigEndian32(raw));
    CopyFromSlice(buffer, 0, BigEndian24(length) + [frameType, flags]);
    CopyFromSlice(buffer, 5, BigEndian32(raw));
    return Ok(required);
  }

  /** Writes the next piece of a frame behind what is written already. */
  method Append(buffer: array<byte>, offset: nat, piece: seq<byte>, ghost original: seq<byte>, ghost written: seq<byte>)
    requires |original| == buffer.Length && offset == |written| && |written| + |piece| <= buffer.Length
    requires buffer[..] == Splice(original, 0, written)
    modifies buffer
    ensures buffer[..] == Splice(original, 0, written + piece)
  {
    SpliceAppend(original, 0, written, piece);
    CopyFromSlice(buffer, offset, piece);
  }

  lemma PayloadPieces(envelope: seq<byte>, f: Fragment)
    ensures envelope + f.PadField() + f.Section() + f.block + f.PadOctets() == envelope + f.Payload()
    ensures |f.Payload()| == |f.PadField()| + |f.Section()| + |f.block| + |f.PadOctets()|
  {
    Regrouped(envelope, f.PadField(), f.Section(), f.block, f.PadOctets());
  }

  lemma Regrouped<T>(e: seq<T>, a: seq<T>, b: seq<T>, c: seq<T>, d: seq<T>)
    ensures e + a + b + c + d == e + (a + b + c + d)
  {
    assert e + a + b == e + (a + b);
    assert e + (a + b) + c == e + (a + b + c);
  }

  /** What is done once the envelope stands: the sections of the payload, from left to right. */
  method WritePayload(buffer: array<byte>, f: Fragment, ghost original: seq<byte>, ghost envelope: seq<byte>)
    requires |original| == buffer.Length >= HEADER_LENGTH + |f.Payload()| && |envelope| == HEADER_LENGTH
    requires buffer[..] == Splice(original, 0, envelope)
    modifies buffer
    ensures buffer[..] == Splice(original, 0, envelope + f.Payload())
  {
    PayloadPieces(envelope, f);
    hide Splice;
    var pad, section := f.PadField(), f.Section();
    var offset := HEADER_LENGTH;
    Append(buffer, offset, pad, original, envelope);
    offset := offset + |pad|;
    Append(buffer, offset, section, original, envelope + pad);
    offset := offset + |section|;
    Append(buffer, offset, f.block, original, envelope + pad + section);
    offset := offset + |f.block|;
    Append(buffer, offset, f.PadOctets(), original, envelope + pad + section + f.block);
  }

  /**
   * Builds a fragment at the front of the buffer. Every check is made before the first write, and
   * the view that is returned is the one that parsing the written frame gives.
   */
  method BuildFragment(buffer: array<byte>, f: Fragment, maximum: nat)
    returns (r: Result<FragmentView, Http2BuildError>)
    modifies buffer
    ensures f.Refused(maximum).Some? ==> r == Err(f.Refused(maximum).value)
    ensures f.Refused(maximum) == None && buffer.Length < |f.Octets()| ==>
              r == Err(FrameBufferTooShort(|f.Octets()|, buffer.Length))
    ensures f.Refused(maximum) == None && buffer.Length >= |f.Octets()| ==>
              && r == Ok(BuiltView(f)) && buffer[..] == Splice(old(buffer[..]), 0, f.Octets())
              && IsFrame(f.Octets()) && FragmentFromFrame(f.Octets()) == Ok(r.value)
    ensures r.Err? ==> buffer[..] == old(buffer[..])
  {
    var refused := CheckFragment(f);
    if refused.Some? {
      return Err(refused.value);
    }
    ghost var original := buffer[..];
    f.FlagsOnWire();
    hide Splice;
    var envelope := WriteEnvelope(buffer, |f.Payload()|, f.Type(), f.WireFlags(), f.stream, maximum);
    if envelope.Err? {
      return Err(envelope.error);
    }
    WritePayload(buffer, f, original, Envelope(|f.Payload()|, f.Type(), f.WireFlags(), f.stream));
    BuiltParses(f);
    return Ok(BuiltView(f));
  }

  /** The checks before the payload length is known, in the order they are made. */
  method CheckFragment(f: Fragment) returns (refused: Option<Http2BuildError>)
    ensures refused == f.Unacceptable()
  {
    if f.HeadersFragment? {
      if HasFlag(f.flags, PADDED) {
        return Some(HeadersPaddedFlagSet);
      }
      if HasFlag(f.flags, PRIORITY) {
        return Some(HeadersPriorityFlagSet);
      }
    } else if f.PushPromiseFragment? {
      if HasFlag(f.flags, PADDED) {
        return Some(PushPromisePaddedFlagSet);
      }
      if StreamValue(f.promised) == 0 {
        return Some(ZeroPromisedStreamId);
      }
      if ReservedBit(f.promised) {
        return Some(ReservedPromisedStreamId);
      }
    }
    if StreamValue(f.stream) == 0 {
      return Some(ZeroStreamId);
    }
    if ReservedBit(f.stream) {
      return Some(ReservedStreamId);
    }
    return None;
  }
}
