/**
 * RFC 9114 section 4.1: the content of one incoming message, counted against its Content-Length,
 * and the order of the frames that carry it.
 */
module Http3Message {
  import opened Machine
  import opened Http3ContentLength

  datatype HeadersKind = RequestHeaders | InformationalResponse | FinalResponse | TrailerHeaders

  /** A decoded header section that has been validated for its kind. */
  datatype Section = Section(kind: HeadersKind, fields: seq<Field>) {
    /** A validated response has three-digit status codes. */
    predicate Validated() {
      (kind == InformationalResponse || kind == FinalResponse) ==>
        forall f :: f in fields && f.name == Ascii(":status") ==> |f.value| == 3 && Digits(f.value)
    }

    predicate IsConnect() {
      exists k :: 0 <= k < |fields| && fields[k] == Field(Ascii(":method"), Ascii("CONNECT"))
    }
  }

  datatype ResponseContext = Ordinary | Head | Connect

  datatype ContentKind = Request | Response(context: ResponseContext) | Push

  datatype Disposition = AwaitingFinalResponse | HttpMessage | ConnectTunnel

  datatype Operation = DataOperation | InitialRequestHeaders | ResponseHeaders | TrailersOperation

  datatype ContentError =
    | BadContentLength(error: LengthError)
    | ContentLengthInTrailers(fieldIndex: nat)
    | ProhibitedContentLength(fieldIndex: nat)
    | UnexpectedHeaderSection(expected: Operation, actualKind: HeadersKind)
    | OperationNotReady(operation: Operation)
    | ContentNotAllowed(dataLength: nat)
    | DataLengthNotRepresentable(length: nat)
    | ReceivedLengthOverflow(receivedLength: u64, frameLength: u64)
    | ContentLengthMismatch(declared: u64, received: u64)
    | NotHttpMessageContent
    | IncompleteContent

  datatype Phase = BeforeInitial | BeforeFinal | InContent | NoContent | NoContentTrailers | Tunnel | AfterTrailers

  datatype Content = Content(kind: ContentKind, phase: Phase, declared: Option<u64>, received: u64)

  /** What can happen to a message. */
  datatype Event = Headers(section: Section) | Data(payload: seq<byte>) | Trailers(section: Section)

  function NewContent(kind: ContentKind): Content {
    Content(kind, if kind.Request? then BeforeInitial else BeforeFinal, None, 0)
  }

  // ---- Accepting header sections ----

  /** The status that the first long enough `:status` field writes. */
  function Status(fields: seq<Field>): int {
    if fields == [] then 0
    else
      var v := fields[0].value;
      if fields[0].name == Ascii(":status") && |v| >= 3 then
        100 * ((v[0] as int) - 48) + 10 * ((v[1] as int) - 48) + ((v[2] as int) - 48)
      else Status(fields[1..])
  }

  /** A validated response's status is a three-digit number, so reading it cannot wrap around. */
  lemma {:induction false} StatusInRange(s: Section)
    requires s.Validated() && (s.kind == InformationalResponse || s.kind == FinalResponse)
    ensures 0 <= Status(s.fields) <= 999
    decreases |s.fields|
  {
    if s.fields != [] {
      assert s.fields[0] in s.fields;
      StatusInRange(Section(s.kind, s.fields[1..]));
    }
  }

  /** The field at `k` is the first that gives a status. */
  predicate StatusField(s: Section, k: nat) {
    && k < |s.fields| && s.fields[k].name == Ascii(":status")
    && forall j :: 0 <= j < k ==> s.fields[j].name != Ascii(":status")
  }

  /** A validated response's status is the number that its first status field writes, or zero without one. */
  lemma {:induction false} StatusIsNumber(s: Section, k: nat)
    requires s.Validated() && (s.kind == InformationalResponse || s.kind == FinalResponse)
    ensures StatusField(s, k) ==>
              Digits(s.fields[k].value) && Status(s.fields) == DecimalNumber(s.fields[k].value)
    ensures (forall j :: 0 <= j < |s.fields| ==> s.fields[j].name != Ascii(":status")) ==> Status(s.fields) == 0
    decreases |s.fields|
  {
    if s.fields != [] {
      var rest := Section(s.kind, s.fields[1..]);
      assert s.fields[0] in s.fields;
      if s.fields[0].name == Ascii(":status") {
        ThreeDigits(s.fields[0].value);
      } else {
        StatusIsNumber(rest, if k > 0 then k - 1 else 0);
        assert forall j :: 0 <= j < |rest.fields| ==> rest.fields[j] == s.fields[j + 1];
      }
    }
  }

  lemma ThreeDigits(v: seq<byte>)
    requires |v| == 3 && Digits(v)
    ensures DecimalNumber(v) == 100 * ((v[0] as int) - 48) + 10 * ((v[1] as int) - 48) + ((v[2] as int) - 48)
  {
    assert v[..2][..1] == v[..1] && v[..1][..0] == [];
    assert DecimalNumber(v[..1]) == v[0] - 48;
    assert DecimalNumber(v[..2]) == DecimalNumber(v[..2][..1]) * 10 + (v[1] - 48);
  }

  function AcceptRequest(c: Content, s: Section): Result<(Content, Disposition), ContentError> {
    if s.kind != RequestHeaders then Err(UnexpectedHeaderSection(InitialRequestHeaders, s.kind))
    else
      match ContentLength(s.fields)
      case Err(e) => Err(BadContentLength(e))
      case Ok(declared) =>
        if s.IsConnect() then Ok((c.(declared := declared, phase := Tunnel), ConnectTunnel))
        else Ok((c.(declared := declared, phase := InContent), HttpMessage))
  }

  /** Where a final response leads, by its context and status. */
  function FinalPhase(kind: ContentKind, status: int): (Phase, Disposition) {
    if kind == Response(Connect) && 200 <= status <= 299 then (Tunnel, ConnectTunnel)
    else if status == 204 then (NoContent, HttpMessage)
    else if !kind.Request? && kind != Response(Connect) && status == 205 then (NoContentTrailers, HttpMessage)
    else if kind == Response(Head) then (NoContentTrailers, HttpMessage)
    else if (kind == Response(Ordinary) || kind == Push) && status == 304 then (NoContentTrailers, HttpMessage)
    else (InContent, HttpMessage)
  }

  predicate Prohibits(kind: ContentKind, status: int) {
    if kind == Response(Connect) then 200 <= status <= 299 else !kind.Request? && status == 204
  }

  function AcceptFinal(c: Content, s: Section): Result<(Content, Disposition), ContentError> {
    var status, first := Status(s.fields), FirstContentLength(s.fields);
    if Prohibits(c.kind, status) && first.Some? then Err(ProhibitedContentLength(first.value))
    else
      match ContentLength(s.fields)
      case Err(e) => Err(BadContentLength(e))
      case Ok(declared) =>
        var (phase, disposition) := FinalPhase(c.kind, status);
        Ok((c.(declared := declared, phase := phase), disposition))
  }

  function AcceptResponse(c: Content, s: Section): Result<(Content, Disposition), ContentError> {
    match s.kind
    case InformationalResponse =>
      var first := FirstContentLength(s.fields);
      if first.Some? then Err(ProhibitedContentLength(first.value)) else Ok((c, AwaitingFinalResponse))
    case FinalResponse => AcceptFinal(c, s)
    case _ => Err(UnexpectedHeaderSection(ResponseHeaders, s.kind))
  }

  function AcceptHeaders(c: Content, s: Section): Result<(Content, Disposition), ContentError> {
    match c.phase
    case BeforeInitial => AcceptRequest(c, s)
    case BeforeFinal => AcceptResponse(c, s)
    case _ => Err(OperationNotReady(if c.kind.Request? then InitialRequestHeaders else ResponseHeaders))
  }

  // ---- Counting content ----

  function LengthMismatch(c: Content): Option<ContentError> {
    if c.declared.Some? && c.declared.value != c.received then Some(ContentLengthMismatch(c.declared.value, c.received))
    else None
  }

  function ReceiveContent(c: Content, length: nat): Result<Content, ContentError> {
    match c.phase
    case Tunnel => Err(NotHttpMessageContent)
    case NoContent => if length == 0 then Ok(c) else Err(ContentNotAllowed(length))
    case NoContentTrailers => if length == 0 then Ok(c) else Err(ContentNotAllowed(length))
    case InContent =>
      var received := c.received + length;
      if length >= U64_LIMIT then Err(DataLengthNotRepresentable(length))
      else if received >= U64_LIMIT then Err(ReceivedLengthOverflow(c.received, length))
      else if c.declared.Some? && received > c.declared.value
        then Err(ContentLengthMismatch(c.declared.value, received))
      else Ok(c.(received := received))
    case _ => Err(OperationNotReady(DataOperation))
  }

  function AcceptTrailers(c: Content, s: Section): Result<Content, ContentError> {
    if s.kind != TrailerHeaders then Err(UnexpectedHeaderSection(TrailersOperation, s.kind))
    else if c.phase == Tunnel then Err(NotHttpMessageContent)
    else if c.phase != InContent && c.phase != NoContentTrailers then Err(OperationNotReady(TrailersOperation))
    else if FirstContentLength(s.fields).Some? then Err(ContentLengthInTrailers(FirstContentLength(s.fields).value))
    else if c.phase == InContent && LengthMismatch(c).Some? then Err(LengthMismatch(c).value)
    else Ok(c.(phase := AfterTrailers))
  }

  function FinishContent(c: Content): Result<(), ContentError> {
    match c.phase
    case BeforeInitial => Err(IncompleteContent)
    case BeforeFinal => Err(IncompleteContent)
    case InContent => if LengthMismatch(c).Some? then Err(LengthMismatch(c).value) else Ok(())
    case _ => Ok(())
  }

  /** What an event does, when it is accepted. */
  function ContentStep(c: Content, e: Event): Result<Content, ContentError> {
    match e
    case Headers(s) =>
      (match AcceptHeaders(c, s)
       case Err(x) => Err(x)
       case Ok(p) => Ok(p.0))
    case Data(payload) => ReceiveContent(c, |payload|)
    case Trailers(s) => AcceptTrailers(c, s)
  }

  // ---- The content state ----

  class Http3MessageContentState {
    var content: Content

    constructor (kind: ContentKind)
      ensures content == NewContent(kind)
    {
      content := NewContent(kind);
    }

    method AcceptInitialHeaders(s: Section) returns (r: Result<Disposition, ContentError>)
      requires s.Validated()
      modifies this
      ensures match AcceptHeaders(old(content), s)
              case Err(e) => r == Err(e) && content == old(content)
              case Ok(p) => r == Ok(p.1) && content == p.0
    {
      if content.phase != BeforeInitial && content.phase != BeforeFinal {
        return Err(OperationNotReady(if content.kind.Request? then InitialRequestHeaders else ResponseHeaders));
      }
      if content.phase == BeforeFinal && s.kind == InformationalResponse {
        var first := FirstContentLength(s.fields);
        return if first.Some? then Err(ProhibitedContentLength(first.value)) else Ok(AwaitingFinalResponse);
      }
      var wanted := if content.phase == BeforeInitial then RequestHeaders else FinalResponse;
      if s.kind != wanted {
        var expected := if content.phase == BeforeInitial then InitialRequestHeaders else ResponseHeaders;
        return Err(UnexpectedHeaderSection(expected, s.kind));
      }
      if content.phase == BeforeFinal {
        StatusInRange(s);
      }
      var status := Status(s.fields);
      assert content.phase == BeforeFinal ==> 0 <= status <= 999;
      if content.phase == BeforeFinal && Prohibits(content.kind, status) {
        var first := FirstContentLength(s.fields);
        if first.Some? {
          return Err(ProhibitedContentLength(first.value));
        }
      }
      var declared := ParseContentLength(s.fields);
      if declared.Err? {
        return Err(BadContentLength(declared.error));
      }
      var next := if content.phase == BeforeInitial
                  then (if s.IsConnect() then (Tunnel, ConnectTunnel) else (InContent, HttpMessage))
                  else FinalPhase(content.kind, status);
      content := content.(declared := declared.value, phase := next.0);
      return Ok(next.1);
    }

    method ReceiveData(payload: seq<byte>) returns (r: Result<(), ContentError>)
      modifies this
      ensures match ContentStep(old(content), Data(payload))
              case Err(e) => r == Err(e) && content == old(content)
              case Ok(next) => r == Ok(()) && content == next
    {
      if content.phase == Tunnel {
        return Err(NotHttpMessageContent);
      }
      if content.phase == NoContent || content.phase == NoContentTrailers {
        return if |payload| == 0 then Ok(()) else Err(ContentNotAllowed(|payload|));
      }
      if content.phase != InContent {
        return Err(OperationNotReady(DataOperation));
      }
      if |payload| >= U64_LIMIT {
        return Err(DataLengthNotRepresentable(|payload|));
      }
      var received := content.received + |payload|;
      if received >= U64_LIMIT {
        return Err(ReceivedLengthOverflow(content.received, |payload|));
      }
      if content.declared.Some? && received > content.declared.value {
        return Err(ContentLengthMismatch(content.declared.value, received));
      }
      content := content.(received := received);
      return Ok(());
    }

    method AcceptTrailerSection(s: Section) returns (r: Result<(), ContentError>)
      modifies this
      ensures match AcceptTrailers(old(content), s)
              case Err(e) => r == Err(e) && content == old(content)
              case Ok(next) => r == Ok(()) && content == next
    {
      if s.kind != TrailerHeaders {
        return Err(UnexpectedHeaderSection(TrailersOperation, s.kind));
      }
      if content.phase == Tunnel {
        return Err(NotHttpMessageContent);
      }
      if content.phase != InContent && content.phase != NoContentTrailers {
        return Err(OperationNotReady(TrailersOperation));
      }
      var first := FirstContentLength(s.fields);
      if first.Some? {
        return Err(ContentLengthInTrailers(first.value));
      }
      if content.phase == InContent {
        var mismatch := LengthMismatch(content);
        if mismatch.Some? {
          return Err(mismatch.value);
        }
      }
      content := content.(phase := AfterTrailers);
      return Ok(());
    }
  }

  // ---- The order of frames ----

  datatype StreamKind = RequestStream | ResponseStream | PushStream

  datatype Position = BeforeHeaders | BeforeFinalResponse | AtContent | AtTrailers

  datatype StreamError =
    | UnexpectedFrame(frameType: u64, position: Position)
    | FramePayload(frameType: u64)
    | InvalidHeaderSection(kind: StreamKind, position: Position, sectionKind: HeadersKind)
    | IncompleteMessage(kind: StreamKind, position: Position)

  /** What a received frame is to the caller. */
  datatype Received = DataFrame | PendingHeaders | PushPromiseFrame | UnknownFrame

  const DATA: u64 := 0
  const HEADERS: u64 := 1
  const PUSH_PROMISE: u64 := 5

  /** CANCEL_PUSH, SETTINGS, GOAWAY and MAX_PUSH_ID, and the types HTTP/2 used. */
  predicate NeverOnMessages(frameType: u64) { frameType in {3, 4, 7, 13} || frameType in {2, 6, 8, 9} }

  function StartPosition(kind: StreamKind): Position {
    if kind.RequestStream? then BeforeHeaders else BeforeFinalResponse
  }

  /** A frame that is received leaves the state alone; headers wait for their section to be accepted. */
  function ReceiveFrame(kind: StreamKind, position: Position, frameType: u64, wellFormed: bool)
    : Result<Received, StreamError>
  {
    if (frameType == HEADERS && position == AtTrailers) || (frameType == DATA && position != AtContent)
       || (frameType == PUSH_PROMISE && kind != ResponseStream) || NeverOnMessages(frameType)
    then Err(UnexpectedFrame(frameType, position))
    else if frameType in {DATA, HEADERS, PUSH_PROMISE} && !wellFormed then Err(FramePayload(frameType))
    else if frameType == HEADERS then Ok(PendingHeaders)
    else if frameType == DATA then Ok(DataFrame)
    else if frameType == PUSH_PROMISE then Ok(PushPromiseFrame)
    else Ok(UnknownFrame)
  }

  /**
   * Each frame type of RFC 9114 section 7.2 by its number: DATA belongs to content, HEADERS anywhere but behind
   * trailers, PUSH_PROMISE on responses, the types for other streams and those HTTP/2 used nowhere, and every other
   * type anywhere. A malformed payload is refused where the frame itself is not.
   */
  lemma VerdictMeaning(kind: StreamKind, position: Position, frameType: u64)
    ensures ReceiveFrame(kind, position, 0, true).Ok? <==> position == AtContent
    ensures ReceiveFrame(kind, position, 1, true).Ok? <==> position != AtTrailers
    ensures ReceiveFrame(kind, position, 5, true).Ok? <==> kind == ResponseStream
    ensures frameType in {2, 3, 4, 6, 7, 8, 9, 13} ==>
              ReceiveFrame(kind, position, frameType, true) == Err(UnexpectedFrame(frameType, position))
    ensures frameType !in {0, 1, 2, 3, 4, 5, 6, 7, 8, 9, 13} ==>
              ReceiveFrame(kind, position, frameType, false) == Ok(UnknownFrame)
    ensures ReceiveFrame(kind, position, frameType, true).Err? ==>
              ReceiveFrame(kind, position, frameType, false) == ReceiveFrame(kind, position, frameType, true)
              == Err(UnexpectedFrame(frameType, position))
    ensures frameType in {0, 1, 5} && ReceiveFrame(kind, position, frameType, true).Ok? ==>
              && ReceiveFrame(kind, position, frameType, false) == Err(FramePayload(frameType))
              && ReceiveFrame(kind, position, frameType, true)
                 == Ok(if frameType == 0 then DataFrame
                       else if frameType == 1 then PendingHeaders
                       else PushPromiseFrame)
  {
  }

  function NextPosition(kind: StreamKind, position: Position, sectionKind: HeadersKind): Result<Position, StreamError> {
    if kind.RequestStream? && position == BeforeHeaders && sectionKind == RequestHeaders then Ok(AtContent)
    else if !kind.RequestStream? && position == BeforeFinalResponse && sectionKind == InformationalResponse
    then Ok(BeforeFinalResponse)
    else if !kind.RequestStream? && position == BeforeFinalResponse && sectionKind == FinalResponse then Ok(AtContent)
    else if position == AtContent && sectionKind == TrailerHeaders then Ok(AtTrailers)
    else Err(InvalidHeaderSection(kind, position, sectionKind))
  }

  function FinishStream(kind: StreamKind, position: Position): Result<(), StreamError> {
    if position == AtContent || position == AtTrailers then Ok(()) else Err(IncompleteMessage(kind, position))
  }

  /** The frame that carries an event, and the section accepted with it. */
  function StreamStep(kind: StreamKind, position: Position, e: Event): Result<Position, StreamError> {
    match e
    case Data(_) =>
      (match ReceiveFrame(kind, position, DATA, true)
       case Err(x) => Err(x)
       case Ok(_) => Ok(position))
    case Headers(s) => HeadersStep(kind, position, s.kind)
    case Trailers(s) => HeadersStep(kind, position, s.kind)
  }

  function HeadersStep(kind: StreamKind, position: Position, sectionKind: HeadersKind): Result<Position, StreamError> {
    match ReceiveFrame(kind, position, HEADERS, true)
    case Err(x) => Err(x)
    case Ok(_) => NextPosition(kind, position, sectionKind)
  }

  class Http3MessageStreamState {
    const kind: StreamKind
    var position: Position

    constructor (kind: StreamKind)
      ensures this.kind == kind && position == StartPosition(kind)
    {
      this.kind := kind;
      this.position := StartPosition(kind);
    }

    method Receive(frameType: u64, wellFormed: bool) returns (r: Result<Received, StreamError>)
      ensures r == ReceiveFrame(kind, position, frameType, wellFormed)
    {
      if frameType == HEADERS {
        if position == AtTrailers {
          return Err(UnexpectedFrame(frameType, position));
        }
        return if wellFormed then Ok(PendingHeaders) else Err(FramePayload(frameType));
      }
      if frameType == DATA {
        if position != AtContent {
          return Err(UnexpectedFrame(frameType, position));
        }
        return if wellFormed then Ok(DataFrame) else Err(FramePayload(frameType));
      }
      if frameType == PUSH_PROMISE {
        if kind != ResponseStream {
          return Err(UnexpectedFrame(frameType, position));
        }
        return if wellFormed then Ok(PushPromiseFrame) else Err(FramePayload(frameType));
      }
      return if NeverOnMessages(frameType) then Err(UnexpectedFrame(frameType, position)) else Ok(UnknownFrame);
    }

    /** Accepts the section of pending headers; an invalid one leaves the position alone. */
    method Accept(sectionKind: HeadersKind) returns (r: Result<(), StreamError>)
      modifies this
      ensures match NextPosition(kind, old(position), sectionKind)
              case Err(e) => r == Err(e) && position == old(position)
              case Ok(next) => r == Ok(()) && position == next
    {
      var next := NextPosition(kind, position, sectionKind);
      if next.Err? {
        return Err(next.error);
      }
      position := next.value;
      return Ok(());
    }
  }

  // ---- Runs ----

  function ContentRun(c: Content, events: seq<Event>): Result<Content, ContentError>
    decreases |events|
  {
    if events == [] then Ok(c)
    else
      match ContentStep(c, events[0])
      case Err(e) => Err(e)
      case Ok(next) => ContentRun(next, events[1..])
  }

  function StreamRun(kind: StreamKind, position: Position, events: seq<Event>): Result<Position, StreamError>
    decreases |events|
  {
    if events == [] then Ok(position)
    else
      match StreamStep(kind, position, events[0])
      case Err(e) => Err(e)
      case Ok(next) => StreamRun(kind, next, events[1..])
  }

  /**
   * A frame as it arrives. `section` is what the caller decodes and validates the field block of a
   * HEADERS frame to, and `payload` is what a DATA frame holds.
   */
  datatype Frame = Frame(frameType: u64, wellFormed: bool, payload: seq<byte>, section: Section)

  /** Receives one frame, and accepts the section of pending headers. */
  function FrameStep(kind: StreamKind, position: Position, f: Frame): Result<Position, StreamError> {
    match ReceiveFrame(kind, position, f.frameType, f.wellFormed)
    case Err(e) => Err(e)
    case Ok(received) => if received.PendingHeaders? then NextPosition(kind, position, f.section.kind) else Ok(position)
  }

  function FrameRun(kind: StreamKind, position: Position, frames: seq<Frame>): Result<Position, StreamError>
    decreases |frames|
  {
    if frames == [] then Ok(position)
    else
      match FrameStep(kind, position, frames[0])
      case Err(e) => Err(e)
      case Ok(next) => FrameRun(kind, next, frames[1..])
  }

  /** The octets of the DATA frames of a run. */
  function DataTotal(events: seq<Event>): nat {
    if events == [] then 0 else (if events[0].Data? then |events[0].payload| else 0) + DataTotal(events[1..])
  }

  /** What every reachable content state satisfies. */
  predicate Accounted(c: Content) {
    && (c.phase == BeforeInitial ==> c.kind.Request?) && (c.phase == BeforeFinal ==> !c.kind.Request?)
    && (c.phase in {BeforeInitial, BeforeFinal} ==> c.declared == None && c.received == 0)
    && (c.phase in {NoContent, NoContentTrailers, Tunnel} ==> c.received == 0)
    && (c.phase == InContent && c.declared.Some? ==> c.received <= c.declared.value)
  }

  lemma StepAccounted(c: Content, e: Event)
    requires Accounted(c) && ContentStep(c, e).Ok?
    ensures Accounted(ContentStep(c, e).value)
    ensures ContentStep(c, e).value.kind == c.kind
    ensures ContentStep(c, e).value.received == c.received + if e.Data? then |e.payload| else 0
    ensures c.phase == InContent ==>
              var next := ContentStep(c, e).value;
              && next.declared == c.declared
              && (next.phase == InContent || (next.phase == AfterTrailers && LengthMismatch(next) == None))
    ensures c.phase == AfterTrailers ==> false
  {
  }

  /** Conservation: what has been received is exactly the data of the accepted frames, and never more than declared. */
  lemma {:induction false} RunConserves(c: Content, events: seq<Event>)
    requires Accounted(c) && ContentRun(c, events).Ok?
    ensures var end := ContentRun(c, events).value;
            Accounted(end) && end.kind == c.kind && end.received == c.received + DataTotal(events)
    decreases |events|
  {
    if events != [] {
      StepAccounted(c, events[0]);
      RunConserves(ContentStep(c, events[0]).value, events[1..]);
    }
  }

  lemma ReceivedIsData(kind: ContentKind, events: seq<Event>)
    requires ContentRun(NewContent(kind), events).Ok?
    ensures var end := ContentRun(NewContent(kind), events).value;
            && end.received == DataTotal(events)
            && (end.phase == InContent && end.declared.Some? ==> end.received <= end.declared.value)
  {
    RunConserves(NewContent(kind), events);
  }

  /** From the content phase on, a message that may finish has exactly the length it declared. */
  lemma {:induction false} FinishIsExact(c: Content, events: seq<Event>)
    requires Accounted(c) && c.phase == InContent && ContentRun(c, events).Ok?
    ensures var end := ContentRun(c, events).value;
            FinishContent(end) == Ok(()) <==> end.declared.None? || c.received + DataTotal(events) == end.declared.value
    ensures ContentRun(c, events).value.declared == c.declared
    decreases |events|
  {
    if events != [] {
      StepAccounted(c, events[0]);
      var next := ContentStep(c, events[0]).value;
      if next.phase == InContent {
        FinishIsExact(next, events[1..]);
      } else {
        TrailersAreLast(next, events[1..]);
      }
    }
  }

  lemma TrailersAreLast(c: Content, events: seq<Event>)
    requires c.phase == AfterTrailers && ContentRun(c, events).Ok?
    ensures events == []
  {
  }

  /** A successful response to CONNECT opens a tunnel. */
  predicate Tunnels(kind: ContentKind, status: int) {
    kind == Response(Connect) && 200 <= status <= 299
  }

  /** The responses that carry no content: to HEAD, and those whose status rules it out. */
  predicate Bodiless(kind: ContentKind, status: int) {
    kind == Response(Head) || (kind != Response(Connect) && status in {204, 205, 304})
  }

  /**
   * What a final response admits: nothing of HTTP in a tunnel, no octet of content for a bodiless one, and trailers for
   * every other but 204.
   */
  predicate Admits(kind: ContentKind, status: int, next: Content, disposition: Disposition, length: nat,
                   trailers: Section)
  {
    && (ReceiveContent(next, length) == Err(NotHttpMessageContent) <==> Tunnels(kind, status))
    && (disposition == if Tunnels(kind, status) then ConnectTunnel else HttpMessage)
    && (ReceiveContent(next, length) == Err(ContentNotAllowed(length)) <==> Bodiless(kind, status))
    && (AcceptTrailers(next, trailers) == Err(OperationNotReady(TrailersOperation)) <==>
          status == 204 && !Tunnels(kind, status))
    && (Bodiless(kind, status) && status != 204 ==> AcceptTrailers(next, trailers).Ok?)
  }

  lemma PhaseAdmits(kind: ContentKind, status: int, next: Content, length: nat, trailers: Section)
    requires !kind.Request? && next.received == 0 && next.phase == FinalPhase(kind, status).0 && 0 < length < U64_LIMIT
    requires trailers.kind == TrailerHeaders && AllMembers(trailers.fields) == []
    ensures Admits(kind, status, next, FinalPhase(kind, status).1, length, trailers)
  {
    match kind
    case Response(Ordinary) =>
    case Response(Head) =>
    case Response(Connect) =>
    case Push =>
  }

  /** What may follow a final response, by the number that its status field writes. */
  lemma FinalResponseMeaning(c: Content, s: Section, k: nat, payload: seq<byte>, trailers: Section)
    requires s.kind == FinalResponse && s.Validated() && StatusField(s, k)
    requires Accounted(c) && c.phase == BeforeFinal && AcceptHeaders(c, s).Ok? && 0 < |payload| < U64_LIMIT
    requires trailers.kind == TrailerHeaders && AllMembers(trailers.fields) == []
    ensures Digits(s.fields[k].value)
    ensures var (next, disposition) := AcceptHeaders(c, s).value;
            && Admits(c.kind, DecimalNumber(s.fields[k].value), next, disposition, |payload|, trailers)
            && Ok(next.declared) == ContentLength(s.fields) && next.received == 0
  {
    StatusIsNumber(s, k);
    hide Status;
    hide DecimalNumber;
    hide ContentLength;
    hide FirstContentLength;
    hide StatusField;
    hide FinalPhase;
    hide Admits;
    PhaseAdmits(c.kind, Status(s.fields), AcceptHeaders(c, s).value.0, |payload|, trailers);
  }

  /** What a request opens: a tunnel exactly when it is a CONNECT, and else content of the length it declares. */
  lemma RequestMeaning(c: Content, s: Section)
    requires Accounted(c) && c.phase == BeforeInitial && AcceptHeaders(c, s).Ok?
    ensures var (next, disposition) := AcceptHeaders(c, s).value;
            var connects := Field(Ascii(":method"), Ascii("CONNECT")) in s.fields;
            && s.kind == RequestHeaders && Ok(next.declared) == ContentLength(s.fields) && next.received == 0
            && (disposition == ConnectTunnel <==> connects) && (next.phase == Tunnel <==> connects)
            && (!connects ==> disposition == HttpMessage && next.phase == InContent)
  {
    hide ContentLength;
  }

  /** An informational response leaves everything as it was, and more headers are awaited. */
  lemma InformationalMeaning(c: Content, s: Section)
    requires c.phase == BeforeFinal && s.kind == InformationalResponse
    ensures AllMembers(s.fields) == [] ==> AcceptHeaders(c, s) == Ok((c, AwaitingFinalResponse))
    ensures AllMembers(s.fields) != [] ==> AcceptHeaders(c, s).Err?
  {
  }

  /** Every refusal of a header section names a fault that is there. */
  lemma HeadersRefused(c: Content, s: Section)
    requires Accounted(c) && AcceptHeaders(c, s).Err?
    ensures match AcceptHeaders(c, s).error
            case BadContentLength(e) => ContentLength(s.fields) == Err(e)
            case ProhibitedContentLength(k) =>
              && c.phase == BeforeFinal && FirstContentLength(s.fields) == Some(k)
              && (s.kind == InformationalResponse
                  || (s.kind == FinalResponse && MayNotDeclare(c.kind, Status(s.fields))))
            case UnexpectedHeaderSection(expected, kind) =>
              && kind == s.kind
              && (c.phase == BeforeInitial ==> expected == InitialRequestHeaders && kind != RequestHeaders)
              && (c.phase == BeforeFinal ==>
                    expected == ResponseHeaders && kind != InformationalResponse && kind != FinalResponse)
              && c.phase in {BeforeInitial, BeforeFinal}
            case OperationNotReady(operation) =>
              && c.phase !in {BeforeInitial, BeforeFinal}
              && operation == if c.kind == Request then InitialRequestHeaders else ResponseHeaders
            case _ => false
  {
  }

  /** The responses that must not declare a length: 204, and what opens a tunnel. */
  predicate MayNotDeclare(kind: ContentKind, status: int) { Tunnels(kind, status) || status == 204 }

  /** A response that must not declare a length is refused when it does. */
  lemma DeclaredRefused(c: Content, s: Section, k: nat)
    requires s.kind == FinalResponse && s.Validated() && StatusField(s, k) && Accounted(c) && c.phase == BeforeFinal
    requires Digits(s.fields[k].value) && MayNotDeclare(c.kind, DecimalNumber(s.fields[k].value))
    requires AllMembers(s.fields) != []
    ensures AcceptHeaders(c, s) == Err(ProhibitedContentLength(FirstContentLength(s.fields).value))
  {
    StatusIsNumber(s, k);
  }

  /** Every refusal of a payload names a fault that is there. */
  lemma ContentRefused(c: Content, length: nat)
    requires Accounted(c) && ReceiveContent(c, length).Err?
    ensures match ReceiveContent(c, length).error
            case NotHttpMessageContent => c.phase == Tunnel
            case ContentNotAllowed(n) => n == length > 0 && c.phase in {NoContent, NoContentTrailers}
            case OperationNotReady(operation) =>
              operation == DataOperation && c.phase in {BeforeInitial, BeforeFinal, AfterTrailers}
            case DataLengthNotRepresentable(n) => n == length > 0xFFFF_FFFF_FFFF_FFFF
            case ReceivedLengthOverflow(received, frame) =>
              received == c.received && frame == length && received + frame > 0xFFFF_FFFF_FFFF_FFFF
            case ContentLengthMismatch(declared, received) =>
              c.phase == InContent && c.declared == Some(declared) && received == c.received + length > declared
            case _ => false
  {
  }

  /** Every refusal of trailers names a fault that is there. */
  lemma TrailersRefused(c: Content, s: Section)
    requires Accounted(c) && AcceptTrailers(c, s).Err?
    ensures match AcceptTrailers(c, s).error
            case UnexpectedHeaderSection(expected, kind) =>
              expected == TrailersOperation && kind == s.kind != TrailerHeaders
            case NotHttpMessageContent => c.phase == Tunnel
            case OperationNotReady(operation) =>
              operation == TrailersOperation && c.phase in {BeforeInitial, BeforeFinal, NoContent, AfterTrailers}
            case ContentLengthInTrailers(k) => FirstContentLength(s.fields) == Some(k)
            case ContentLengthMismatch(declared, received) =>
              c.phase == InContent && c.declared == Some(declared) && received == c.received != declared
            case _ => false
  {
  }

  /** Accepted trailers are a trailer section without a length, after content that is complete. */
  lemma TrailersMeaning(c: Content, s: Section)
    requires Accounted(c) && AcceptTrailers(c, s).Ok?
    ensures s.kind == TrailerHeaders && AllMembers(s.fields) == []
    ensures c.phase == InContent || c.phase == NoContentTrailers
    ensures c.phase == InContent && c.declared.Some? ==> c.received == c.declared.value
    ensures AcceptTrailers(c, s).value == c.(phase := AfterTrailers)
  {
  }

  /** Why a message may not finish: its headers are missing, or its content is not what was declared. */
  lemma FinishRefused(c: Content)
    requires Accounted(c)
    ensures FinishContent(c) == Err(IncompleteContent) <==> c.phase in {BeforeInitial, BeforeFinal}
    ensures FinishContent(c).Err? && c.phase !in {BeforeInitial, BeforeFinal} <==>
            c.phase == InContent && c.declared.Some? && c.declared.value != c.received
    ensures c.phase == InContent && FinishContent(c).Err? ==>
              FinishContent(c) == Err(ContentLengthMismatch(c.declared.value, c.received))
  {
  }

  /** However a run goes on, a bodiless message has received nothing. */
  lemma {:induction false} BodilessStaysEmpty(c: Content, events: seq<Event>)
    requires c.phase == NoContent || c.phase == NoContentTrailers || c.phase == Tunnel || c.phase == AfterTrailers
    requires ContentRun(c, events).Ok?
    ensures DataTotal(events) == 0 && ContentRun(c, events).value.received == c.received
    decreases |events|
  {
    if events != [] {
      BodilessStaysEmpty(ContentStep(c, events[0]).value, events[1..]);
    }
  }

  // ---- The order of a message ----

  predicate Carries(e: Event, kind: HeadersKind) { !e.Data? && e.section.kind == kind }

  /** DATA frames, and then possibly trailers. */
  predicate Rest(events: seq<Event>) {
    || (forall k :: 0 <= k < |events| ==> events[k].Data?)
    || (events != [] && Carries(events[|events| - 1], TrailerHeaders)
        && forall k :: 0 <= k < |events| - 1 ==> events[k].Data?)
  }

  /** Section 4.1: informational responses, then the headers of the message, then its rest. */
  predicate Message(kind: StreamKind, events: seq<Event>, informational: nat) {
    && informational < |events| && (kind.RequestStream? ==> informational == 0)
    && (forall k :: 0 <= k < informational ==> Carries(events[k], InformationalResponse))
    && Carries(events[informational], if kind.RequestStream? then RequestHeaders else FinalResponse)
    && Rest(events[informational + 1..])
  }

  lemma {:induction false} EventRestExact(kind: StreamKind, events: seq<Event>)
    ensures StreamRun(kind, AtContent, events).Ok? <==> Rest(events)
    ensures StreamRun(kind, AtContent, events).Ok? ==> FinishStream(kind, StreamRun(kind, AtContent, events).value).Ok?
    decreases |events|
  {
    if events != [] {
      var e, rest := events[0], events[1..];
      if e.Data? {
        EventRestExact(kind, rest);
        assert forall k :: 0 <= k < |rest| ==> rest[k] == events[k + 1];
        assert rest != [] ==> rest[|rest| - 1] == events[|events| - 1];
        assert Rest(rest) <==> Rest(events);
      } else if e.section.kind == TrailerHeaders {
        AfterTrailersNothing(kind, rest);
        if rest != [] {
          assert !events[0].Data?;
        }
      }
    }
  }

  lemma AfterTrailersNothing(kind: StreamKind, events: seq<Event>)
    ensures StreamRun(kind, AtTrailers, events).Ok? <==> events == []
  {
  }

  /** The headers and data of a whole message are let through exactly in the order of section 4.1. */
  lemma {:induction false} EventOrderExact(kind: StreamKind, events: seq<Event>)
    ensures var r := StreamRun(kind, StartPosition(kind), events);
            (r.Ok? && FinishStream(kind, r.value).Ok?) <==> exists n: nat :: Message(kind, events, n)
    decreases |events|
  {
    if events != [] {
      var e, rest := events[0], events[1..];
      if Carries(e, if kind.RequestStream? then RequestHeaders else FinalResponse) {
        EventRestExact(kind, rest);
        assert Rest(rest) <==> Message(kind, events, 0);
        assert forall n: nat :: 0 < n < |events| && Message(kind, events, n) ==>
               Carries(events[0], InformationalResponse);
      } else if Carries(e, InformationalResponse) && !kind.RequestStream? {
        EventOrderExact(kind, rest);
        MessageShift(kind, events);
      } else {
        assert forall n: nat :: Message(kind, events, n) && n > 0 ==> Carries(events[0], InformationalResponse);
      }
    }
  }

  lemma MessageShift(kind: StreamKind, events: seq<Event>)
    requires !kind.RequestStream? && events != [] && Carries(events[0], InformationalResponse)
    ensures (exists n: nat :: Message(kind, events, n)) <==> exists n: nat :: Message(kind, events[1..], n)
  {
    var rest := events[1..];
    if n: nat :| Message(kind, events, n) {
      assert Carries(events[0], InformationalResponse) && n > 0;
      assert rest[n..] == events[n + 1..];
      assert Message(kind, rest, n - 1);
    }
    if n: nat :| Message(kind, rest, n) {
      assert rest[n + 1..] == events[n + 2..];
      assert Message(kind, events, n + 1);
    }
  }

  // ---- The order of all frames ----

  predicate IsContent(f: Frame) { f.frameType == DATA || f.frameType == HEADERS }

  function EventOf(f: Frame): Event {
    if f.frameType == DATA then Data(f.payload)
    else if f.section.kind == TrailerHeaders then Trailers(f.section)
    else Headers(f.section)
  }

  /** What the HEADERS and DATA frames carry, in order. */
  function Carried(frames: seq<Frame>): seq<Event> {
    if frames == [] then []
    else (if IsContent(frames[0]) then [EventOf(frames[0])] else []) + Carried(frames[1..])
  }

  /** A well-formed frame that carries the event. */
  function FrameOf(e: Event): Frame {
    match e
    case Data(payload) => Frame(0, true, payload, Section(TrailerHeaders, []))
    case Headers(section) => Frame(1, true, [], section)
    case Trailers(section) => Frame(1, true, [], section)
  }

  /** Trailers are the sections that follow content, and only those. */
  predicate Named(e: Event) {
    match e
    case Data(_) => true
    case Headers(section) => section.kind != TrailerHeaders
    case Trailers(section) => section.kind == TrailerHeaders
  }

  /** DATA frames carry content and HEADERS frames carry sections: what is framed is carried, in order. */
  lemma {:induction false} CarriedRoundTrip(kind: StreamKind, events: seq<Event>)
    requires forall e :: e in events ==> Named(e)
    ensures var frames := seq(|events|, i requires 0 <= i < |events| => FrameOf(events[i]));
            Interleaved(kind, frames) && Carried(frames) == events
  {
    var frames := seq(|events|, i requires 0 <= i < |events| => FrameOf(events[i]));
    if events != [] {
      var rest := events[1..];
      CarriedRoundTrip(kind, rest);
      assert frames[1..] == seq(|rest|, i requires 0 <= i < |rest| => FrameOf(rest[i]));
      assert Named(events[0]);
    }
  }

  /**
   * A frame that may stand anywhere in a message on this stream: a push promise on a response, or
   * any type that neither HTTP/3 keeps for other streams nor HTTP/2 used.
   */
  predicate Ignorable(kind: StreamKind, f: Frame) {
    if f.frameType == PUSH_PROMISE then kind == ResponseStream && f.wellFormed else !NeverOnMessages(f.frameType)
  }

  /** HEADERS and DATA frames are well formed, and every other frame is ignorable. */
  predicate Interleaved(kind: StreamKind, frames: seq<Frame>) {
    forall k :: 0 <= k < |frames| ==> if IsContent(frames[k]) then frames[k].wellFormed else Ignorable(kind, frames[k])
  }

  /** Ignorable frames change nothing: a run is the run of what its HEADERS and DATA frames carry. */
  lemma {:induction false} RunOfCarried(kind: StreamKind, position: Position, frames: seq<Frame>)
    ensures FrameRun(kind, position, frames).Ok? <==>
            Interleaved(kind, frames) && StreamRun(kind, position, Carried(frames)).Ok?
    ensures FrameRun(kind, position, frames).Ok? ==>
              FrameRun(kind, position, frames) == StreamRun(kind, position, Carried(frames))
    decreases |frames|
  {
    if frames != [] {
      var f, rest := frames[0], frames[1..];
      InterleavedCons(kind, frames);
      if IsContent(f) {
        assert Carried(frames)[0] == EventOf(f) && Carried(frames)[1..] == Carried(rest);
        assert f.wellFormed ==> FrameStep(kind, position, f) == StreamStep(kind, position, EventOf(f));
      } else {
        assert Carried(frames) == Carried(rest);
      }
      if FrameStep(kind, position, f).Ok? {
        RunOfCarried(kind, FrameStep(kind, position, f).value, rest);
      }
    }
  }

  lemma InterleavedCons(kind: StreamKind, frames: seq<Frame>)
    requires frames != []
    ensures Interleaved(kind, frames) <==>
            && (if IsContent(frames[0]) then frames[0].wellFormed else Ignorable(kind, frames[0]))
            && Interleaved(kind, frames[1..])
  {
    assert frames == [frames[0]] + frames[1..];
  }

  /** At the content position exactly DATA frames and then possibly trailers go on, with ignorable frames anywhere. */
  lemma RestExact(kind: StreamKind, frames: seq<Frame>)
    ensures FrameRun(kind, AtContent, frames).Ok? <==> Interleaved(kind, frames) && Rest(Carried(frames))
    ensures FrameRun(kind, AtContent, frames).Ok? ==> FinishStream(kind, FrameRun(kind, AtContent, frames).value).Ok?
  {
    RunOfCarried(kind, AtContent, frames);
    EventRestExact(kind, Carried(frames));
  }

  /**
   * The stream machine lets the frames of a whole message through exactly when their headers and data have the
   * order of section 4.1 and are well formed, and every other frame among them is ignorable.
   */
  lemma MessageOrderExact(kind: StreamKind, frames: seq<Frame>)
    ensures var r := FrameRun(kind, StartPosition(kind), frames);
            (r.Ok? && FinishStream(kind, r.value).Ok?) <==>
            Interleaved(kind, frames) && exists n: nat :: Message(kind, Carried(frames), n)
  {
    RunOfCarried(kind, StartPosition(kind), frames);
    EventOrderExact(kind, Carried(frames));
  }

  // ---- The two machines together ----

  function StreamOf(kind: ContentKind): StreamKind {
    match kind
    case Request => RequestStream
    case Response(_) => ResponseStream
    case Push => PushStream
  }

  /** The frame position at each phase of the content. */
  function PositionOf(phase: Phase): Position {
    match phase
    case BeforeInitial => BeforeHeaders
    case BeforeFinal => BeforeFinalResponse
    case AfterTrailers => AtTrailers
    case _ => AtContent
  }

  lemma StepsAgree(c: Content, e: Event)
    requires Accounted(c) && ContentStep(c, e).Ok?
    ensures StreamStep(StreamOf(c.kind), PositionOf(c.phase), e) == Ok(PositionOf(ContentStep(c, e).value.phase))
  {
  }

  lemma {:induction false} RunsAgree(c: Content, events: seq<Event>)
    requires Accounted(c) && ContentRun(c, events).Ok?
    ensures var end := ContentRun(c, events).value;
            && StreamRun(StreamOf(c.kind), PositionOf(c.phase), events) == Ok(PositionOf(end.phase))
            && (FinishContent(end).Ok? ==> FinishStream(StreamOf(c.kind), PositionOf(end.phase)).Ok?)
    decreases |events|
  {
    if events != [] {
      StepAccounted(c, events[0]);
      StepsAgree(c, events[0]);
      RunsAgree(ContentStep(c, events[0]).value, events[1..]);
    }
  }

  /**
   * Frames whose headers and data content accounting accepts are in an order that the stream accepts, with ignorable
   * frames anywhere between them, and end where the content ends.
   */
  lemma ContentWithinStream(kind: ContentKind, frames: seq<Frame>)
    requires Interleaved(StreamOf(kind), frames) && ContentRun(NewContent(kind), Carried(frames)).Ok?
    ensures var end := ContentRun(NewContent(kind), Carried(frames)).value;
            var stream := StreamOf(kind);
            && FrameRun(stream, StartPosition(stream), frames) == Ok(PositionOf(end.phase))
            && (FinishContent(end).Ok? ==> FinishStream(stream, PositionOf(end.phase)).Ok?)
  {
    RunsAgree(NewContent(kind), Carried(frames));
    RunOfCarried(StreamOf(kind), StartPosition(StreamOf(kind)), frames);
  }
}
