/** RFC 9113 section 4.1 frames, and the header-block fragments of sections 6.2, 6.6 and 6.10. */
module Http2Frame {
  import opened Machine

  const HEADER_LENGTH := 9
  const MAXIMUM_PAYLOAD: nat := 0xFF_FFFF

  const HEADERS: byte := 1
  const PUSH_PROMISE: byte := 5
  const CONTINUATION: byte := 9

  const END_HEADERS: byte := 4
  const PADDED: byte := 8
  const PRIORITY: byte := 32

  datatype Http2ParseError =
    | Incomplete(required: nat, available: nat)
    | OversizedPayload(maximum: nat, actual: nat)
    | WrongFrameType(expected: byte, actualType: byte)
    | ZeroStream
    | InvalidPadding(paddingLength: byte, payloadLength: nat)
    | MalformedPayload(required: nat, available: nat)
    | ZeroPromisedStream

  datatype Http2BuildError =
    | HeadersPaddedFlagSet
    | HeadersPriorityFlagSet
    | PushPromisePaddedFlagSet
    | ZeroStreamId
    | ReservedStreamId
    | ZeroPromisedStreamId
    | ReservedPromisedStreamId
    | PayloadTooLarge(maximum: nat, actual: nat)
    | FrameBufferTooShort(required: nat, available: nat)

  // ---- Flags and stream identifiers ----

  predicate HasFlag(flags: byte, mask: byte)
    requires mask > 0
  {
    flags / mask % 2 == 1
  }

  /** The bitwise union with a single flag. */
  function WithFlag(flags: int, mask: byte, wanted: bool): int
    requires mask > 0
  {
    if wanted && flags / mask % 2 != 1 then flags + mask else flags
  }

  lemma FlagMeans(flags: byte, mask: byte)
    requires mask > 0
    ensures HasFlag(flags, mask) <==> flags / mask % 2 == 1
  {
  }

  /** Setting one of the two layout flags leaves the others as they were. */
  lemma PaddedSet(flags: byte)
    requires !HasFlag(flags, PADDED)
    ensures flags + PADDED < 256 && HasFlag(flags + PADDED, PADDED)
    ensures HasFlag(flags + PADDED, END_HEADERS) <==> HasFlag(flags, END_HEADERS)
    ensures HasFlag(flags + PADDED, PRIORITY) <==> HasFlag(flags, PRIORITY)
  {
    assert (flags + 8) / 8 == flags / 8 + 1 && (flags + 8) / 4 == flags / 4 + 2;
    assert (flags + 8) / 32 == flags / 32;
  }

  lemma PrioritySet(flags: byte)
    requires !HasFlag(flags, PRIORITY)
    ensures flags + PRIORITY < 256 && HasFlag(flags + PRIORITY, PRIORITY)
    ensures HasFlag(flags + PRIORITY, END_HEADERS) <==> HasFlag(flags, END_HEADERS)
    ensures HasFlag(flags + PRIORITY, PADDED) <==> HasFlag(flags, PADDED)
  {
    assert (flags + 32) / 32 == flags / 32 + 1 && (flags + 32) / 4 == flags / 4 + 8
           && (flags + 32) / 8 == flags / 8 + 4;
  }

  /** The 31-bit value of a raw identifier. */
  function StreamValue(raw: u32): u32 { raw % 0x8000_0000 }

  predicate ReservedBit(raw: u32) { raw >= 0x8000_0000 }

  // ---- Frames ----

  /** A frame with its whole payload. */
  predicate IsFrame(frame: seq<byte>) {
    |frame| >= HEADER_LENGTH && |frame| == HEADER_LENGTH + DeclaredLength(frame)
  }

  function DeclaredLength(bytes: seq<byte>): nat
    requires |bytes| >= HEADER_LENGTH
  {
    0x1_0000 * (bytes[0] as int) + 0x100 * (bytes[1] as int) + bytes[2]
  }

  function FrameType(frame: seq<byte>): byte
    requires IsFrame(frame)
  {
    frame[3]
  }

  function Flags(frame: seq<byte>): byte
    requires IsFrame(frame)
  {
    frame[4]
  }

  function RawStream(frame: seq<byte>): u32
    requires IsFrame(frame)
  {
    FromBigEndian32(frame[5..9])
  }

  function Stream(frame: seq<byte>): u32
    requires IsFrame(frame)
  {
    StreamValue(RawStream(frame))
  }

  function Payload(frame: seq<byte>): seq<byte>
    requires IsFrame(frame)
  {
    frame[HEADER_LENGTH..]
  }

  function EndsHeaders(frame: seq<byte>): bool
    requires IsFrame(frame)
  {
    HasFlag(Flags(frame), END_HEADERS)
  }

  /** The first frame of the input, and nothing of what follows it. */
  function ParseFrame(bytes: seq<byte>, maximum: nat): (r: Result<seq<byte>, Http2ParseError>)
    ensures r.Ok? ==> IsFrame(r.value) && r.value <= bytes && |r.value| <= HEADER_LENGTH + maximum
  {
    if |bytes| < HEADER_LENGTH then Err(Incomplete(HEADER_LENGTH, |bytes|))
    else if DeclaredLength(bytes) > maximum then Err(OversizedPayload(maximum, DeclaredLength(bytes)))
    else
      var required := HEADER_LENGTH + DeclaredLength(bytes);
      if |bytes| < required then Err(Incomplete(required, |bytes|))
      else Ok(bytes[..required])
  }

  /** Every frame of a text, one after another. */
  function ParseFrames(bytes: seq<byte>, maximum: nat): (r: Result<seq<seq<byte>>, Http2ParseError>)
    ensures r.Ok? ==> forall f :: f in r.value ==> IsFrame(f)
    decreases |bytes|
  {
    if bytes == [] then Ok([])
    else
      match ParseFrame(bytes, maximum)
      case Err(e) => Err(e)
      case Ok(frame) =>
        match ParseFrames(bytes[|frame|..], maximum)
        case Err(e) => Err(e)
        case Ok(rest) => Ok([frame] + rest)
  }

  function BigEndian24(x: nat): (octets: seq<byte>)
    requires x <= MAXIMUM_PAYLOAD
    ensures |octets| == 3
  {
    [x / 0x1_0000, x / 0x100 % 0x100, x % 0x100]
  }

  function Envelope(length: nat, frameType: byte, flags: byte, raw: u32): (octets: seq<byte>)
    requires length <= MAXIMUM_PAYLOAD
    ensures |octets| == HEADER_LENGTH
  {
    BigEndian24(length) + [frameType, flags] + BigEndian32(raw)
  }

  function FrameOctets(frameType: byte, flags: byte, raw: u32, payload: seq<byte>): (frame: seq<byte>)
    requires |payload| <= MAXIMUM_PAYLOAD
  {
    Envelope(|payload|, frameType, flags, raw) + payload
  }

  lemma DeclaredIsLength(length: nat, frameType: byte, flags: byte, raw: u32, payload: seq<byte>)
    requires length <= MAXIMUM_PAYLOAD
    ensures DeclaredLength(Envelope(length, frameType, flags, raw) + payload) == length
  {
    var e := BigEndian24(length);
    assert (Envelope(length, frameType, flags, raw) + payload)[..3] == e;
  }

  /** A built frame has the header it was given. */
  lemma FrameHeader(frameType: byte, flags: byte, raw: u32, payload: seq<byte>)
    requires |payload| <= MAXIMUM_PAYLOAD
    ensures var frame := FrameOctets(frameType, flags, raw, payload);
            && IsFrame(frame) && FrameType(frame) == frameType && Flags(frame) == flags
            && RawStream(frame) == raw && Payload(frame) == payload
  {
    var frame := FrameOctets(frameType, flags, raw, payload);
    DeclaredIsLength(|payload|, frameType, flags, raw, payload);
    assert frame[5..9] == BigEndian32(raw);
    BigEndian32RoundTrip(raw);
  }

  /** The order of a frame header on the wire: length, type, flags and stream, the most significant octet first. */
  lemma HeaderOnWire(frameType: byte, flags: byte)
    ensures Envelope(0x01_0203, frameType, flags, 0x0405_0607) == [1, 2, 3, frameType, flags, 4, 5, 6, 7]
    ensures StreamValue(0x8405_0607) == StreamValue(0x0405_0607) == 0x0405_0607
  {
  }

  /** A frame is what its first three octets announce, and it begins where the input does. */
  lemma ParseFrameExact(bytes: seq<byte>, maximum: nat, frame: seq<byte>)
    ensures ParseFrame(bytes, maximum) == Ok(frame) <==>
            IsFrame(frame) && |frame| <= 9 + maximum && frame <= bytes
  {
    if IsFrame(frame) && |frame| <= HEADER_LENGTH + maximum && frame <= bytes {
      FrameRoundTrip(frame, bytes[|frame|..], maximum);
      assert bytes == frame + bytes[|frame|..];
    }
  }

  /** Why there is no frame: not all of it is there, or it announces more than is allowed. */
  lemma ParseFrameRefused(bytes: seq<byte>, maximum: nat)
    requires ParseFrame(bytes, maximum).Err?
    ensures match ParseFrame(bytes, maximum).error
            case Incomplete(required, available) =>
              && available == |bytes| < required
              && if |bytes| < 9 then required == 9 else required == 9 + DeclaredLength(bytes) <= 9 + maximum
            case OversizedPayload(limit, actual) =>
              |bytes| >= 9 && limit == maximum < actual == DeclaredLength(bytes)
            case _ => false
  {
  }

  /** A built frame, followed by anything, parses back to itself. */
  lemma FrameRoundTrip(frame: seq<byte>, suffix: seq<byte>, maximum: nat)
    requires IsFrame(frame) && |frame| <= HEADER_LENGTH + maximum
    ensures ParseFrame(frame + suffix, maximum) == Ok(frame)
  {
    assert DeclaredLength(frame + suffix) == DeclaredLength(frame);
    assert (frame + suffix)[..|frame|] == frame;
  }

  // ---- Fragments, as they are built ----

  datatype Priority = Priority(rawDependency: u32, weight: byte) {
    function Octets(): (octets: seq<byte>)
      ensures |octets| == 5
    {
      BigEndian32(rawDependency) + [weight]
    }
  }

  function Zeros(n: nat): seq<byte> { seq(n, _ => 0) }

  /** What a caller asks a builder for. */
  datatype Fragment =
    | HeadersFragment(stream: u32, flags: byte, block: seq<byte>, priority: Option<Priority>, padding: Option<byte>)
    | PushPromiseFragment(stream: u32, flags: byte, promised: u32, block: seq<byte>, padding: Option<byte>)
    | ContinuationFragment(stream: u32, flags: byte, block: seq<byte>)
  {
    function Type(): byte {
      match this
      case HeadersFragment(_, _, _, _, _) => HEADERS
      case PushPromiseFragment(_, _, _, _, _) => PUSH_PROMISE
      case ContinuationFragment(_, _, _) => CONTINUATION
    }

    function Padding(): Option<byte> { if ContinuationFragment? then None else padding }

    function PadField(): seq<byte> { if Padding().Some? then [Padding().value] else [] }

    function PadOctets(): seq<byte> { if Padding().Some? then Zeros(Padding().value) else [] }

    /** What stands between the pad length and the block. */
    function Section(): seq<byte> {
      match this
      case HeadersFragment(_, _, _, priority, _) => if priority.Some? then priority.value.Octets() else []
      case PushPromiseFragment(_, _, promised, _, _) => BigEndian32(promised)
      case ContinuationFragment(_, _, _) => []
    }

    function Payload(): seq<byte> { PadField() + Section() + block + PadOctets() }

    predicate HasPriority() { HeadersFragment? && priority.Some? }

    /** The flags on the wire: the caller's, and those the layout needs. */
    function WireFlags(): int {
      WithFlag(WithFlag(flags, PADDED, Padding().Some?), PRIORITY, HasPriority())
    }

    /** Why the builder refuses the request itself. */
    function Unacceptable(): Option<Http2BuildError> {
      if HeadersFragment? && HasFlag(flags, PADDED) then Some(HeadersPaddedFlagSet)
      else if HeadersFragment? && HasFlag(flags, PRIORITY) then Some(HeadersPriorityFlagSet)
      else if PushPromiseFragment? && HasFlag(flags, PADDED) then Some(PushPromisePaddedFlagSet)
      else if PushPromiseFragment? && StreamValue(promised) == 0 then Some(ZeroPromisedStreamId)
      else if PushPromiseFragment? && ReservedBit(promised) then Some(ReservedPromisedStreamId)
      else if StreamValue(stream) == 0 then Some(ZeroStreamId)
      else if ReservedBit(stream) then Some(ReservedStreamId)
      else None
    }

    /** A request is refused exactly for a flag that belongs to the layout, or for a stream that is zero or reserved. */
    lemma AcceptableExact()
      ensures Unacceptable() == None <==>
              && 0 < stream < 0x8000_0000
              && (ContinuationFragment? || flags / 8 % 2 == 0)
              && (HeadersFragment? ==> flags / 32 % 2 == 0)
              && (PushPromiseFragment? ==> 0 < promised < 0x8000_0000)
      ensures match Unacceptable()
              case None => true
              case Some(HeadersPaddedFlagSet) => HeadersFragment? && flags / 8 % 2 == 1
              case Some(HeadersPriorityFlagSet) => HeadersFragment? && flags / 32 % 2 == 1
              case Some(PushPromisePaddedFlagSet) => PushPromiseFragment? && flags / 8 % 2 == 1
              case Some(ZeroPromisedStreamId) => PushPromiseFragment? && promised in {0, 0x8000_0000}
              case Some(ReservedPromisedStreamId) => PushPromiseFragment? && promised >= 0x8000_0000
              case Some(ZeroStreamId) => stream in {0, 0x8000_0000}
              case Some(ReservedStreamId) => stream >= 0x8000_0000
              case _ => false
    {
    }

    /** The type octet and the flags of a built frame, bit by bit. */
    lemma TypeAndFlags()
      requires Buildable()
      ensures |Octets()| > 4
      ensures Octets()[3] == if HeadersFragment? then 1 else if PushPromiseFragment? then 5 else 9
      ensures Octets()[4] == flags + (if !ContinuationFragment? && padding.Some? then 8 else 0)
                             + (if HeadersFragment? && priority.Some? then 32 else 0)
    {
      FlagsOnWire();
      FrameHeader(Type(), WireFlags(), stream, Payload());
    }

    predicate Buildable() { Unacceptable() == None && |Payload()| <= MAXIMUM_PAYLOAD }

    /** Why the builder refuses, whatever the buffer. */
    function Refused(maximum: nat): (e: Option<Http2BuildError>)
      ensures e == None ==> Buildable() && |Payload()| <= maximum
    {
      var limit := Min(maximum, MAXIMUM_PAYLOAD);
      if Unacceptable().Some? then Unacceptable()
      else if |Payload()| > limit then Some(PayloadTooLarge(limit, |Payload()|))
      else None
    }

    /** An acceptable request is refused exactly for a payload over the caller's limit or over what 24 bits can say. */
    lemma RefusedExact(maximum: nat)
      ensures Refused(maximum) == None
              <==> Unacceptable() == None && |Payload()| <= maximum && |Payload()| < 0x100_0000
      ensures Refused(maximum).Some? && Unacceptable() == None ==>
                var limit := if maximum < 0x100_0000 then maximum else 0xff_ffff;
                Refused(maximum) == Some(PayloadTooLarge(limit, |Payload()|))
      ensures Unacceptable().Some? ==> Refused(maximum) == Unacceptable()
    {
    }

    lemma FlagsOnWire()
      requires Unacceptable() == None
      ensures 0 <= WireFlags() < 256
      ensures !ContinuationFragment? ==> (HasFlag(WireFlags(), PADDED) <==> Padding().Some?)
      ensures HeadersFragment? ==> (HasFlag(WireFlags(), PRIORITY) <==> priority.Some?)
      ensures HasFlag(WireFlags(), END_HEADERS) <==> HasFlag(flags, END_HEADERS)
    {
      hide HasFlag;
      var padded := WithFlag(flags, PADDED, Padding().Some?);
      FlagMeans(flags, PADDED);
      if Padding().Some? {
        PaddedSet(flags);
      }
      FlagMeans(padded, PRIORITY);
      if HasPriority() {
        PrioritySet(padded);
      }
    }

    /** The whole frame. */
    function Octets(): (frame: seq<byte>)
      requires Buildable()
    {
      FlagsOnWire();
      FrameOctets(Type(), WireFlags(), stream, Payload())
    }
  }
}
