/** RFC 9112 section 7.1 chunked bodies: the parser, and the iterator that parses them again. */
module Http1Chunked {
  import opened Machine
  import opened Http1Fields
  import opened Http1ChunkLine

  datatype Chunk = Chunk(size: nat, data: seq<byte>, extensions: seq<byte>)

  datatype Body = Body(bytes: seq<byte>, chunksEnd: nat, decodedLen: nat, lastExtensions: seq<byte>,
                       trailers: seq<byte>)

  // ---- Bodies ----

  function LineFailure(e: LineEndError, available: nat, malformed: Http1ParseError): Http1ParseError {
    if e == LineIncomplete then Incomplete(available + 1, available) else malformed
  }

  /** The offset of the blank line that ends the trailers. */
  function BlankLine(input: seq<byte>, offset: nat): (r: Result<nat, LineEndError>)
    ensures r.Ok? ==> offset <= r.value && r.value + 2 <= |input|
    decreases |input| - offset
  {
    match LineEnd(input, offset)
    case Err(e) => Err(e)
    case Ok(end) => if end == offset then Ok(offset) else BlankLine(input, end + 2)
  }

  /** The chunk that starts here: its line's end, its line, and where the next begins. */
  datatype Piece = Piece(lineEnd: nat, line: ChunkLine, next: nat)

  /** One chunk of nonzero size, whole. */
  function ChunkAt(input: seq<byte>, offset: nat): (r: Option<Piece>)
    ensures r.Some? ==> offset <= r.value.lineEnd && r.value.lineEnd + 4 + r.value.line.size == r.value.next <= |input|
    ensures r.Some? ==> r.value.line.size > 0
  {
    match LineEnd(input, offset)
    case Err(_) => None
    case Ok(end) =>
      match ChunkLineOf(input[offset..end])
      case Err(_) => None
      case Ok(line) =>
        var dataEnd := end + 2 + line.size;
        if line.size > 0 && dataEnd + 2 <= |input| && input[dataEnd..dataEnd + 2] == [CR, LF]
        then Some(Piece(end, line, dataEnd + 2)) else None
  }

  function LastChunk(input: seq<byte>, offset: nat, decoded: nat, lineEnd: nat,
                     extensions: seq<byte>): (r: Result<Body, Http1ParseError>)
    requires offset <= lineEnd && lineEnd + 2 <= |input|
  {
    match BlankLine(input, lineEnd + 2)
    case Err(e) => Err(LineFailure(e, |input|, InvalidTrailer))
    case Ok(blank) =>
      var trailers := input[lineEnd + 2..blank];
      match FieldsError(trailers, 0, true)
      case Some(e) => Err(e)
      case None => Ok(Body(input[..blank + 2], offset, decoded, extensions, trailers))
  }

  /** A chunk is a line that gives a size above zero, that many octets, and CR LF. */
  lemma ChunkAtExact(input: seq<byte>, offset: nat, p: Piece)
    ensures ChunkAt(input, offset) == Some(p) <==>
            && LineEnd(input, offset) == Ok(p.lineEnd) && ChunkLineOf(input[offset..p.lineEnd]) == Ok(p.line)
            && 0 < p.line.size && p.lineEnd + 4 + p.line.size == p.next <= |input|
            && input[p.next - 2] as char == '\r' && input[p.next - 1] as char == '\n'
  {
    hide LineEnd;
    hide ChunkLineOf;
  }

  /** What is wrong with the sizes of a nonzero chunk, if anything. */
  function SizeError(input: seq<byte>, decoded: nat, lineEnd: nat, size: nat): Option<Http1ParseError>
    requires lineEnd + 2 <= |input|
  {
    var dataEnd := lineEnd + 2 + size;
    if decoded + size > USIZE_MAX then Some(DecodedSizeOverflow)
    else if dataEnd > USIZE_MAX || dataEnd + 2 > USIZE_MAX then Some(ChunkSizeOverflow)
    else if |input| < dataEnd + 2 then Some(Incomplete(dataEnd + 2, |input|))
    else if input[dataEnd..dataEnd + 2] != [CR, LF] then Some(InvalidChunkTerminator)
    else None
  }

  function ParseFrom(input: seq<byte>, offset: nat, decoded: nat): (r: Result<Body, Http1ParseError>)
    ensures r.Ok? ==>
              && |r.value.bytes| <= |input| && r.value.bytes == input[..|r.value.bytes|]
              && offset <= r.value.chunksEnd && r.value.chunksEnd + 2 <= |r.value.bytes|
    decreases |input| - offset
  {
    hide ChunkLineOf;
    hide SizeError;
    hide FieldsError;
    match LineEnd(input, offset)
    case Err(e) => Err(LineFailure(e, |input|, InvalidChunkSize))
    case Ok(end) =>
      match ChunkLineOf(input[offset..end])
      case Err(e) => Err(e)
      case Ok(line) =>
        if line.size == 0 then LastChunk(input, offset, decoded, end, line.extensions)
        else
          match SizeError(input, decoded, end, line.size)
          case Some(e) => Err(e)
          case None => ParseFrom(input, end + 4 + line.size, decoded + line.size)
  }

  /** One turn of the chunk loop. */
  lemma Turn(input: seq<byte>, offset: nat, decoded: nat, end: nat, line: ChunkLine)
    requires LineEnd(input, offset) == Ok(end) && ChunkLineOf(input[offset..end]) == Ok(line)
    ensures line.size == 0 ==>
              ParseFrom(input, offset, decoded) == LastChunk(input, offset, decoded, end, line.extensions)
    ensures line.size > 0 ==>
              var e := SizeError(input, decoded, end, line.size);
              && (e.Some? ==> ParseFrom(input, offset, decoded) == Err(e.value))
              && (e.None? ==>
                    ParseFrom(input, offset, decoded) == ParseFrom(input, end + 4 + line.size, decoded + line.size))
  {
    hide ChunkLineOf;
    hide LastChunk;
    hide SizeError;
  }

  /** The first line of an accepted body. */
  lemma FirstLine(input: seq<byte>, offset: nat, decoded: nat) returns (end: nat, line: ChunkLine)
    requires ParseFrom(input, offset, decoded).Ok?
    ensures LineEnd(input, offset) == Ok(end) && ChunkLineOf(input[offset..end]) == Ok(line)
    ensures end + 2 <= |ParseFrom(input, offset, decoded).value.bytes|
    ensures line.size > 0 ==>
              && SizeError(input, decoded, end, line.size) == None
              && end + 4 + line.size <= ParseFrom(input, offset, decoded).value.chunksEnd
  {
    hide ChunkLineOf;
    hide FieldsError;
    end := LineEnd(input, offset).value;
    line := ChunkLineOf(input[offset..end]).value;
    Turn(input, offset, decoded, end, line);
  }

  function ParseBody(input: seq<byte>): Result<Body, Http1ParseError> {
    ParseFrom(input, 0, 0)
  }

  lemma LineFails(input: seq<byte>, offset: nat, decoded: nat)
    ensures LineEnd(input, offset).Err? ==>
              ParseFrom(input, offset, decoded)
                == Err(LineFailure(LineEnd(input, offset).error, |input|, InvalidChunkSize))
    ensures LineEnd(input, offset).Ok? && ChunkLineOf(input[offset..LineEnd(input, offset).value]).Err? ==>
              ParseFrom(input, offset, decoded) == Err(ChunkLineOf(input[offset..LineEnd(input, offset).value]).error)
  {
    hide ChunkLineOf;
    hide LineFailure;
  }

  method Parse(input: seq<byte>) returns (r: Result<Body, Http1ParseError>)
    ensures r == ParseBody(input)
  {
    hide ParseFrom;
    hide ChunkLineOf;
    hide LastChunk;
    hide LineEnd;
    hide LineFailure;
    var offset := 0;
    var decodedLen := 0;
    while true
      invariant offset <= |input| && 0 <= decodedLen && ParseFrom(input, offset, decodedLen) == ParseBody(input)
      decreases |input| - offset
    {
      LineFails(input, offset, decodedLen);
      var found := FindLineEnd(input, offset);
      if found.Err? {
        return Err(LineFailure(found.error, |input|, InvalidChunkSize));
      }
      var lineEnd := found.value;
      var parsed := ParseChunkLine(input[offset..lineEnd]);
      if parsed.Err? {
        return Err(parsed.error);
      }
      Turn(input, offset, decodedLen, lineEnd, parsed.value);
      var size := parsed.value.size;
      if size == 0 {
        r := ParseTrailers(input, offset, decodedLen, lineEnd, parsed.value.extensions);
        return;
      }
      if decodedLen + size > USIZE_MAX {
        return Err(DecodedSizeOverflow);
      }
      var dataEnd := lineEnd + 2 + size;
      if dataEnd > USIZE_MAX {
        return Err(ChunkSizeOverflow);
      }
      var required := dataEnd + 2;
      if required > USIZE_MAX {
        return Err(ChunkSizeOverflow);
      }
      if |input| < required {
        return Err(Incomplete(required, |input|));
      }
      if input[dataEnd..required] != [CR, LF] {
        return Err(InvalidChunkTerminator);
      }
      decodedLen := decodedLen + size;
      offset := required;
    }
  }

  method ParseTrailers(input: seq<byte>, offset: nat, decodedLen: nat, lineEnd: nat, extensions: seq<byte>)
    returns (r: Result<Body, Http1ParseError>)
    requires offset <= lineEnd && lineEnd + 2 <= |input|
    ensures r == LastChunk(input, offset, decodedLen, lineEnd, extensions)
  {
    var start := lineEnd + 2;
    var trailerOffset := start;
    while true
      invariant start <= trailerOffset <= |input|
      invariant BlankLine(input, trailerOffset) == BlankLine(input, start)
      decreases |input| - trailerOffset
    {
      var found := FindLineEnd(input, trailerOffset);
      if found.Err? {
        return Err(LineFailure(found.error, |input|, InvalidTrailer));
      }
      if found.value == trailerOffset {
        var fields := ParseFields(input[start..trailerOffset], true);
        if fields.Err? {
          return Err(fields.error);
        }
        return Ok(Body(input[..found.value + 2], offset, decodedLen, extensions, input[start..trailerOffset]));
      }
      trailerOffset := found.value + 2;
    }
  }

  // ---- More input changes nothing, and less is always incomplete ----

  lemma {:induction false} BlankLineBehind(input: seq<byte>, other: seq<byte>, offset: nat)
    requires BlankLine(input, offset).Ok?
    requires var end := BlankLine(input, offset).value + 2; end <= |other| && other[..end] == input[..end]
    ensures BlankLine(other, offset) == BlankLine(input, offset)
    decreases |input| - offset
  {
    var end, blank := LineEnd(input, offset).value, BlankLine(input, offset).value;
    SamePrefix(input, other, end + 2, blank + 2);
    LineEndStable(input, other, offset, end);
    if end != offset {
      BlankLineBehind(input, other, end + 2);
    }
  }

  lemma {:induction false} BlankLineCut(input: seq<byte>, offset: nat, k: nat)
    requires BlankLine(input, offset).Ok? && offset <= k < BlankLine(input, offset).value + 2
    ensures BlankLine(input[..k], offset) == Err(LineIncomplete)
    decreases |input| - offset
  {
    var end := LineEnd(input, offset).value;
    if k < end + 2 {
      LineCut(input, offset, end, k);
    } else {
      SamePrefix(input, input[..k], end + 2, k);
      LineEndStable(input, input[..k], offset, end);
      BlankLineCut(input, end + 2, k);
    }
  }

  lemma SamePrefix(a: seq<byte>, b: seq<byte>, short: nat, long: nat)
    requires short <= long <= |a| && long <= |b| && b[..long] == a[..long]
    ensures b[..short] == a[..short]
  {
    assert b[..long][..short] == a[..long][..short];
    assert b[..long][..short] == b[..short] && a[..long][..short] == a[..short];
  }

  lemma SameMiddle(a: seq<byte>, b: seq<byte>, from: nat, to: nat, long: nat)
    requires from <= to <= long <= |a| && long <= |b| && b[..long] == a[..long]
    ensures b[from..to] == a[from..to]
  {
    assert b[from..to] == b[..long][from..to] && a[from..to] == a[..long][from..to];
  }

  lemma LastChunkStable(input: seq<byte>, other: seq<byte>, offset: nat, decoded: nat, end: nat, extensions: seq<byte>)
    requires offset <= end && end + 2 <= |input| && LastChunk(input, offset, decoded, end, extensions).Ok?
    requires var n := |LastChunk(input, offset, decoded, end, extensions).value.bytes|;
             end + 2 <= n <= |input| && n <= |other| && other[..n] == input[..n]
    ensures LastChunk(other, offset, decoded, end, extensions) == LastChunk(input, offset, decoded, end, extensions)
  {
    hide FieldsError;
    var blank := BlankLine(input, end + 2).value;
    BlankLineBehind(input, other, end + 2);
    SameMiddle(input, other, end + 2, blank, blank + 2);
  }

  /** The octets of an accepted body decide its parse: whatever follows them is left alone. */
  lemma {:induction false} ParseStable(input: seq<byte>, other: seq<byte>, offset: nat, decoded: nat)
    requires ParseFrom(input, offset, decoded).Ok?
    requires var n := |ParseFrom(input, offset, decoded).value.bytes|;
             n <= |input| && n <= |other| && other[..n] == input[..n]
    ensures ParseFrom(other, offset, decoded) == ParseFrom(input, offset, decoded)
    decreases |input| - offset
  {
    hide ParseFrom;
    hide ChunkLineOf;
    hide LastChunk;
    hide LineEnd;
    var n := |ParseFrom(input, offset, decoded).value.bytes|;
    var end, line := FirstLine(input, offset, decoded);
    SamePrefix(input, other, end + 2, n);
    LineEndStable(input, other, offset, end);
    Turn(input, offset, decoded, end, line);
    Turn(other, offset, decoded, end, line);
    if line.size == 0 {
      LastChunkStable(input, other, offset, decoded, end, line.extensions);
    } else {
      SameMiddle(input, other, end + 2 + line.size, end + 4 + line.size, n);
      ParseStable(input, other, end + 4 + line.size, decoded + line.size);
    }
  }

  /** Appending octets never changes an accepted result. */
  lemma AppendKeepsBody(input: seq<byte>, suffix: seq<byte>)
    requires ParseBody(input).Ok?
    ensures ParseBody(input + suffix) == ParseBody(input)
  {
    var n := |ParseBody(input).value.bytes|;
    assert (input + suffix)[..n] == input[..n];
    ParseStable(input, input + suffix, 0, 0);
  }

  lemma {:induction false} ParseCut(input: seq<byte>, offset: nat, decoded: nat, k: nat)
    requires ParseFrom(input, offset, decoded).Ok?
    requires offset <= k < |ParseFrom(input, offset, decoded).value.bytes| <= |input|
    ensures var r := ParseFrom(input[..k], offset, decoded);
            && r.Err? && r.error.Incomplete? && r.error.available == k
            && k < r.error.required <= |ParseFrom(input, offset, decoded).value.bytes|
    decreases |input| - offset
  {
    hide ParseFrom;
    hide ChunkLineOf;
    hide LineEnd;
    hide BlankLine;
    hide FieldsError;
    var end, line := FirstLine(input, offset, decoded);
    Turn(input, offset, decoded, end, line);
    if k < end + 2 {
      LineCut(input, offset, end, k);
      LineFails(input[..k], offset, decoded);
    } else {
      SamePrefix(input, input[..k], end + 2, k);
      LineEndStable(input, input[..k], offset, end);
      Turn(input[..k], offset, decoded, end, line);
      var next := end + 4 + line.size;
      if line.size == 0 {
        BlankLineCut(input, end + 2, k);
      } else if k >= next {
        SameMiddle(input, input[..k], next - 2, next, k);
        ParseCut(input, next, decoded + line.size, k);
      }
    }
  }

  /** Every strict prefix of an accepted body is incomplete, and it asks for no more than the body has. */
  lemma PrefixIsIncomplete(input: seq<byte>, k: nat)
    requires ParseBody(input).Ok? && k < |ParseBody(input).value.bytes| <= |input|
    ensures var r := ParseBody(input[..k]);
            && r.Err? && r.error.Incomplete? && r.error.available == k
            && k < r.error.required <= |ParseBody(input).value.bytes|
  {
    ParseCut(input, 0, 0, k);
  }

  // ---- Why a body is refused ----

  /** Whole chunks of nonzero size, and nothing else, stand from here to `k`, and their data is `total` octets. */
  predicate WholeUpTo(input: seq<byte>, offset: nat, k: nat, total: nat)
    decreases |input| - offset
  {
    if offset == k then total == 0
    else
      && ChunkAt(input, offset).Some?
      && var p := ChunkAt(input, offset).value;
         p.line.size <= total && WholeUpTo(input, p.next, k, total - p.line.size)
  }

  /** The line at `k`, and the size it gives. */
  predicate SizedAt(input: seq<byte>, k: nat, end: nat, size: nat) {
    && LineEnd(input, k) == Ok(end) && ChunkLineOf(input[k..end]).Ok?
    && ChunkLineOf(input[k..end]).value.size == size
  }

  /** The chunk ends, and the data so far adds up, within what can be counted. */
  predicate Counted(end: nat, size: nat, total: nat) { total + size <= USIZE_MAX && end + 4 + size <= USIZE_MAX }

  /** What is wrong at `k`, where `total` octets of data have been counted. */
  ghost predicate FaultAt(input: seq<byte>, k: nat, total: nat, e: Http1ParseError) {
    match e
    case InvalidField => false
    case Incomplete(required, available) =>
      && available == |input| < required
      && (|| LineEnd(input, k) == Err(LineIncomplete)
          || (exists end: nat, size: nat ::
                SizedAt(input, k, end, size) && size > 0 && Counted(end, size, total) && required == end + 4 + size)
          || (exists end: nat :: SizedAt(input, k, end, 0) && BlankLine(input, end + 2) == Err(LineIncomplete)))
    case InvalidChunkSize =>
      || LineEnd(input, k) == Err(LineMalformed)
      || (exists end: nat :: LineEnd(input, k) == Ok(end) && ChunkLineOf(input[k..end]) == Err(InvalidChunkSize))
    case ChunkSizeOverflow =>
      exists end: nat ::
        && LineEnd(input, k) == Ok(end)
        && (|| HexNumber(input[k..end][..HexRun(input[k..end])]) > USIZE_MAX
            || (exists size: nat ::
                  SizedAt(input, k, end, size) && total + size <= USIZE_MAX < end + 4 + size))
    case DecodedSizeOverflow => exists end: nat, size: nat :: SizedAt(input, k, end, size) && total + size > USIZE_MAX
    case InvalidChunkTerminator =>
      exists end: nat, size: nat ::
        && SizedAt(input, k, end, size) && size > 0 && Counted(end, size, total)
        && end + 4 + size <= |input| && input[end + 2 + size..end + 4 + size] != [CR, LF]
    case InvalidTrailer =>
      exists end: nat :: SizedAt(input, k, end, 0) && TrailersFail(input, end + 2)
  }

  /** A trailer line is malformed, or the lines before the blank one are not all fields that trailers allow. */
  predicate TrailersFail(input: seq<byte>, start: nat) {
    || BlankLine(input, start) == Err(LineMalformed)
    || (BlankLine(input, start).Ok? && FieldsError(input[start..BlankLine(input, start).value], 0, true).Some?)
  }

  /** Trailers up to a blank line are never cut short. */
  lemma {:induction false} TrailersWhole(input: seq<byte>, start: nat, offset: nat)
    requires start <= offset && BlankLine(input, offset).Ok?
    ensures var blank := BlankLine(input, offset).value;
            var error := FieldsError(input[start..blank], offset - start, true);
            error == None || error == Some(InvalidTrailer)
    decreases |input| - offset
  {
    hide AcceptedLine;
    hide LineEnd;
    var blank, end := BlankLine(input, offset).value, LineEnd(input, offset).value;
    if end != offset {
      LineEndExact(input, offset, end);
      LineEndExact(input[start..blank], offset - start, end - start);
      TrailersWhole(input, start, end + 2);
    }
  }

  /** The line at `offset` is at fault. */
  lemma LineFault(input: seq<byte>, offset: nat, decoded: nat)
    requires offset <= |input|
    requires LineEnd(input, offset).Err? || ChunkLineOf(input[offset..LineEnd(input, offset).value]).Err?
    ensures ParseFrom(input, offset, decoded).Err?
    ensures FaultAt(input, offset, decoded, ParseFrom(input, offset, decoded).error)
  {
    hide ParseFrom;
    hide LineEnd;
    LineFails(input, offset, decoded);
  }

  /** The size at `offset`, or the data behind it, is at fault. */
  lemma SizeFault(input: seq<byte>, offset: nat, decoded: nat, end: nat, size: nat)
    requires SizedAt(input, offset, end, size) && size > 0 && SizeError(input, decoded, end, size).Some?
    ensures FaultAt(input, offset, decoded, SizeError(input, decoded, end, size).value)
  {
    hide LineEnd;
    hide ChunkLineOf;
    hide BlankLine;
  }

  /** What follows the last line is at fault. */
  lemma LastFault(input: seq<byte>, offset: nat, decoded: nat, end: nat, extensions: seq<byte>)
    requires SizedAt(input, offset, end, 0) && LastChunk(input, offset, decoded, end, extensions).Err?
    ensures FaultAt(input, offset, decoded, LastChunk(input, offset, decoded, end, extensions).error)
  {
    if BlankLine(input, end + 2).Ok? {
      TrailersWhole(input, end + 2, end + 2);
    }
    hide LineEnd;
    hide ChunkLineOf;
    hide FieldsError;
    hide BlankLine;
  }

  /** Every refusal of a body names a fault that is there, and every chunk in front of the fault is whole. */
  lemma {:induction false} RefusedAt(input: seq<byte>, offset: nat, decoded: nat) returns (k: nat, total: nat)
    requires offset <= |input| && ParseFrom(input, offset, decoded).Err?
    ensures offset <= k && WholeUpTo(input, offset, k, total)
    ensures FaultAt(input, k, decoded + total, ParseFrom(input, offset, decoded).error)
    decreases |input| - offset
  {
    hide ParseFrom;
    hide LineEnd;
    hide ChunkLineOf;
    hide FaultAt;
    k, total := offset, 0;
    if LineEnd(input, offset).Err? || ChunkLineOf(input[offset..LineEnd(input, offset).value]).Err? {
      LineFault(input, offset, decoded);
      return;
    }
    hide LastChunk;
    var end := LineEnd(input, offset).value;
    var line := ChunkLineOf(input[offset..end]).value;
    Turn(input, offset, decoded, end, line);
    if line.size == 0 {
      LastFault(input, offset, decoded, end, line.extensions);
    } else if SizeError(input, decoded, end, line.size).Some? {
      SizeFault(input, offset, decoded, end, line.size);
    } else {
      var next, rest: nat := end + 4 + line.size, 0;
      k, rest := RefusedAt(input, next, decoded + line.size);
      total := line.size + rest;
      assert ChunkAt(input, offset) == Some(Piece(end, line, next));
    }
  }

  // ---- The iterator ----

  /** The octets are chunks of nonzero size and nothing else. */
  predicate Chunked(bytes: seq<byte>, offset: nat)
    decreases |bytes| - offset
  {
    offset == |bytes| || (ChunkAt(bytes, offset).Some? && Chunked(bytes, ChunkAt(bytes, offset).value.next))
  }

  function ChunksFrom(bytes: seq<byte>, offset: nat): (chunks: seq<Chunk>)
    requires Chunked(bytes, offset)
    ensures forall c :: c in chunks ==> c.size == |c.data| > 0
    decreases |bytes| - offset
  {
    if offset == |bytes| then []
    else
      var p := ChunkAt(bytes, offset).value;
      [Chunk(p.line.size, bytes[p.lineEnd + 2..p.next - 2], p.line.extensions)] + ChunksFrom(bytes, p.next)
  }

  function TotalSize(chunks: seq<Chunk>): nat {
    if chunks == [] then 0 else |chunks[0].data| + TotalSize(chunks[1..])
  }

  /** A chunk is found again where its octets are cut off behind it. */
  lemma ChunkAtCut(input: seq<byte>, offset: nat, end: nat)
    requires ChunkAt(input, offset).Some? && ChunkAt(input, offset).value.next <= end <= |input|
    ensures ChunkAt(input[..end], offset) == ChunkAt(input, offset)
  {
    hide ChunkLineOf;
    hide LineEnd;
    var p := ChunkAt(input, offset).value;
    SamePrefix(input, input[..end], p.lineEnd + 2, end);
    LineEndStable(input, input[..end], offset, p.lineEnd);
    SameMiddle(input, input[..end], p.next - 2, p.next, end);
  }

  /** What the parser accepted in front of the last chunk is chunks, and their data adds up to the decoded length. */
  lemma {:induction false} AcceptedIsChunked(input: seq<byte>, offset: nat, decoded: nat)
    requires ParseFrom(input, offset, decoded).Ok? && offset <= |input|
    ensures var b := ParseFrom(input, offset, decoded).value;
            && offset <= b.chunksEnd <= |input| && Chunked(input[..b.chunksEnd], offset)
            && decoded + TotalSize(ChunksFrom(input[..b.chunksEnd], offset)) == b.decodedLen
    decreases |input| - offset
  {
    hide ParseFrom;
    hide ChunkLineOf;
    hide LineEnd;
    hide FieldsError;
    var b := ParseFrom(input, offset, decoded).value;
    var end, line := FirstLine(input, offset, decoded);
    Turn(input, offset, decoded, end, line);
    if line.size > 0 {
      var next := end + 4 + line.size;
      AcceptedIsChunked(input, next, decoded + line.size);
      assert ChunkAt(input, offset) == Some(Piece(end, line, next));
      ChunkAtCut(input, offset, b.chunksEnd);
      var chunks := ChunksFrom(input[..b.chunksEnd], offset);
      assert chunks[1..] == ChunksFrom(input[..b.chunksEnd], next);
    }
  }

  class Http1Chunks {
    const bytes: seq<byte>
    var offset: nat
    ghost var rest: seq<Chunk>

    ghost predicate Valid()
      reads this
    {
      offset <= |bytes| && Chunked(bytes, offset) && rest == ChunksFrom(bytes, offset)
    }

    /** Iterates the chunks of an accepted body. */
    constructor (ghost input: seq<byte>, body: Body)
      requires ParseBody(input) == Ok(body)
      ensures Valid() && offset == 0 && body.chunksEnd <= |input| && bytes == input[..body.chunksEnd]
      ensures TotalSize(rest) == body.decodedLen
    {
      hide ParseFrom;
      hide Chunked;
      hide ChunksFrom;
      AcceptedIsChunked(input, 0, 0);
      assert body.bytes[..body.chunksEnd] == input[..body.chunksEnd];
      this.bytes := body.bytes[..body.chunksEnd];
      this.offset := 0;
      this.rest := ChunksFrom(input[..body.chunksEnd], 0);
    }

    /** Yields the next chunk. Parsing it again cannot fail, so the iteration ends only after the last. */
    method Next() returns (r: Option<Chunk>)
      requires Valid()
      modifies this
      ensures Valid()
      ensures if old(rest) == [] then r == None && rest == []
              else r == Some(old(rest)[0]) && rest == old(rest)[1..]
    {
      hide ChunkLineOf;
      hide LineEnd;
      if offset == |bytes| {
        return None;
      }
      var found := FindLineEnd(bytes, offset);
      var lineEnd := found.value;
      var parsed := ParseChunkLine(bytes[offset..lineEnd]);
      var size := parsed.value.size;
      var dataStart := lineEnd + 2;
      var dataEnd := dataStart + size;
      offset := dataEnd + 2;
      rest := rest[1..];
      return Some(Chunk(size, bytes[dataStart..dataEnd], parsed.value.extensions));
    }
  }
}
