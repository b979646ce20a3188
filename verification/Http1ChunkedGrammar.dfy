/**
 * Chunked bodies as they are written. The parser accepts exactly what this grammar writes, which is the grammar of
 * RFC 9112 section 7.1, without five forbidden trailers and with optional whitespace behind the extensions of a line.
 */
module Http1ChunkedGrammar {
  import opened Machine
  import opened Http1Fields
  import opened Http1Extensions
  import opened Http1ChunkLine
  import opened Http1Chunked

  const CRLF: seq<byte> := [CR, LF]

  /** A chunk as it is written: its line and its data. */
  datatype WrittenChunk = WrittenChunk(head: Head, data: seq<byte>)

  function Line(line: seq<byte>): (octets: seq<byte>)
    ensures |octets| == |line| + 2
  {
    line + CRLF
  }

  function WriteChunk(chunk: WrittenChunk): seq<byte> { Line(WriteHead(chunk.head)) + Line(chunk.data) }

  function WriteChunks(chunks: seq<WrittenChunk>): (octets: seq<byte>) {
    if chunks == [] then [] else WriteChunk(chunks[0]) + WriteChunks(chunks[1..])
  }

  function WriteTrailers(trailers: seq<FieldText>): seq<byte> {
    if trailers == [] then [] else Line(WriteField(trailers[0])) + WriteTrailers(trailers[1..])
  }

  function DataLength(chunks: seq<WrittenChunk>): nat {
    if chunks == [] then 0 else |chunks[0].data| + DataLength(chunks[1..])
  }

  /** A line whose digits write this size. */
  predicate SizeHead(h: Head, size: nat) { GoodHead(h) && HexNumber(h.digits) == size }

  predicate GoodChunk(chunk: WrittenChunk) { chunk.data != [] && SizeHead(chunk.head, |chunk.data|) }

  /** The line of the last chunk: one or more zeros, and extensions. */
  predicate LastHead(h: Head) { GoodHead(h) && AllZeros(h.digits) }

  /** A whole body: chunks of nonzero size, a last line, trailers, and a blank line. */
  datatype Grammar = Grammar(chunks: seq<WrittenChunk>, last: Head, trailers: seq<FieldText>) {
    predicate Good() {
      && (forall c :: c in chunks ==> GoodChunk(c))
      && LastHead(last)
      && forall f :: f in trailers ==> GoodField(f, true)
    }

    /** No line has whitespace behind its last extension: a body of RFC 9112 section 7.1. */
    predicate Strict() {
      Good() && last.trailing == [] && forall c :: c in chunks ==> c.head.trailing == []
    }

    function Octets(): seq<byte> {
      WriteChunks(chunks) + (Line(WriteHead(last)) + (WriteTrailers(trailers) + CRLF))
    }
  }

  // ---- Everything the grammar writes is accepted ----

  /** A line that is written into a text is found there. */
  lemma LineFound(text: seq<byte>, at: nat, line: seq<byte>)
    requires At(text, at, Line(line)) && Unbroken(line)
    ensures at + |line| + 2 <= |text|
    ensures LineEnd(text, at) == Ok(at + |line|)
    ensures text[at..at + |line|] == line
  {
    hide LineEnd;
    AtSplit(text, at, line, CRLF);
    AtOctet(text, at + |line|, CRLF, 0);
    AtOctet(text, at + |line|, CRLF, 1);
    forall i | at <= i < at + |line|
      ensures text[i] != CR && text[i] != LF
    {
      AtOctet(text, at, line, i - at);
    }
    LineEndExact(text, at, at + |line|);
  }

  lemma FieldUnbroken(f: FieldText)
    requires GoodField(f, true)
    ensures WriteField(f) != [] && Unbroken(WriteField(f))
  {
    hide ForbiddenName;
    UnbrokenTokens(f.name);
    assert Unbroken([COLON] + f.value);
    UnbrokenConcat(f.name, [COLON] + f.value);
  }

  lemma {:induction false} TrailersFound(text: seq<byte>, at: nat, trailers: seq<FieldText>)
    requires forall f :: f in trailers ==> GoodField(f, true)
    requires At(text, at, WriteTrailers(trailers)) && At(text, at + |WriteTrailers(trailers)|, CRLF)
    ensures BlankLine(text, at) == Ok(at + |WriteTrailers(trailers)|)
    decreases |trailers|
  {
    hide LineEnd;
    hide GoodField;
    hide WriteField;
    hide At;
    if trailers == [] {
      assert Line([]) == CRLF;
      LineFound(text, at, []);
    } else {
      var line, rest := WriteField(trailers[0]), WriteTrailers(trailers[1..]);
      FieldUnbroken(trailers[0]);
      AtSplit(text, at, Line(line), rest);
      LineFound(text, at, line);
      TrailersFound(text, at + |line| + 2, trailers[1..]);
    }
  }

  lemma {:induction false} TrailersAccepted(text: seq<byte>, at: nat, trailers: seq<FieldText>)
    requires forall f :: f in trailers ==> GoodField(f, true)
    requires At(text, at, WriteTrailers(trailers)) && at + |WriteTrailers(trailers)| == |text|
    ensures FieldsError(text, at, true) == None
    decreases |trailers|
  {
    hide LineEnd;
    hide AcceptedLine;
    hide GoodField;
    hide WriteField;
    hide At;
    if trailers != [] {
      var line, rest := WriteField(trailers[0]), WriteTrailers(trailers[1..]);
      FieldUnbroken(trailers[0]);
      WrittenFieldAccepted(trailers[0], true);
      AtSplit(text, at, Line(line), rest);
      LineFound(text, at, line);
      TrailersAccepted(text, at + |line| + 2, trailers[1..]);
    }
  }

  /** A chunk line that is written into a text is found and read there. */
  lemma HeadFound(text: seq<byte>, at: nat, h: Head)
    requires At(text, at, Line(WriteHead(h))) && GoodHead(h) && HexNumber(h.digits) <= USIZE_MAX
    ensures var end := at + |WriteHead(h)|;
            && end + 2 <= |text| && LineEnd(text, at) == Ok(end)
            && ChunkLineOf(text[at..end]) == Ok(ChunkLine(HexNumber(h.digits), HeadTail(h)))
  {
    hide LineEnd;
    hide ChunkLineOf;
    hide WriteHead;
    hide HeadTail;
    hide At;
    hide Unbroken;
    hide GoodExtensions;
    UnbrokenHead(h);
    HeadParsed(h);
    LineFound(text, at, WriteHead(h));
  }

  lemma LastChunkAccepted(text: seq<byte>, at: nat, g: Grammar, decoded: nat)
    requires g.Good() && g.chunks == [] && At(text, at, g.Octets())
    ensures ParseFrom(text, at, decoded)
            == Ok(Body(text[..at + |g.Octets()|], at, decoded, HeadTail(g.last), WriteTrailers(g.trailers)))
  {
    hide ChunkLineOf;
    hide FieldsError;
    hide ParseFrom;
    hide LineEnd;
    hide BlankLine;
    hide WriteTrailers;
    hide WriteHead;
    hide HeadTail;
    hide GoodHead;
    hide GoodField;
    hide LastHead;
    var line, trailers := WriteHead(g.last), WriteTrailers(g.trailers);
    var start := at + |line| + 2;
    assert g.Octets() == Line(line) + (trailers + CRLF);
    AtSplit(text, at, Line(line), trailers + CRLF);
    AtSplit(text, start, trailers, CRLF);
    LastLineRead(text, at, g.last);
    TrailersFound(text, start, g.trailers);
    TrailersAccepted(trailers, 0, g.trailers);
    Turn(text, at, decoded, at + |line|, ChunkLine(0, HeadTail(g.last)));
  }

  lemma LastLineRead(text: seq<byte>, at: nat, h: Head)
    requires LastHead(h) && At(text, at, Line(WriteHead(h)))
    ensures var end := at + |WriteHead(h)|;
            && end + 2 <= |text| && LineEnd(text, at) == Ok(end)
            && ChunkLineOf(text[at..end]) == Ok(ChunkLine(0, HeadTail(h)))
  {
    hide At;
    hide ChunkLineOf;
    hide LineEnd;
    hide WriteHead;
    hide HeadTail;
    hide Digits;
    hide HexNumber;
    hide AllZeros;
    ZeroExact(h.digits);
    HeadFound(text, at, h);
  }

  /** A chunk that is written into a text is found and read there, and its data is in its place. */
  lemma ChunkFound(text: seq<byte>, at: nat, c: WrittenChunk)
    requires At(text, at, WriteChunk(c)) && GoodChunk(c) && |text| <= ISIZE_MAX
    ensures var end := at + |WriteHead(c.head)|;
            && end + 4 + |c.data| == at + |WriteChunk(c)| <= |text|
            && LineEnd(text, at) == Ok(end)
            && ChunkLineOf(text[at..end]) == Ok(ChunkLine(|c.data|, HeadTail(c.head)))
            && text[end + 2..end + 2 + |c.data|] == c.data
            && text[end + 2 + |c.data|..end + 4 + |c.data|] == CRLF
  {
    hide LineEnd;
    hide ChunkLineOf;
    hide WriteHead;
    hide HeadTail;
    hide GoodHead;
    var line := Line(WriteHead(c.head));
    AtSplit(text, at, line, Line(c.data));
    AtSplit(text, at + |line|, c.data, CRLF);
    HeadFound(text, at, c.head);
  }

  /** The octets of a body are those of its first chunk and of a body with the rest. */
  lemma OctetsStep(g: Grammar)
    requires g.chunks != []
    ensures g.Octets() == WriteChunk(g.chunks[0]) + g.(chunks := g.chunks[1..]).Octets()
  {
  }

  /** A body the grammar writes, anywhere in a text, is parsed to its end. */
  lemma {:induction false} WrittenAccepted(text: seq<byte>, at: nat, g: Grammar, decoded: nat)
    requires g.Good() && At(text, at, g.Octets()) && |text| <= ISIZE_MAX && decoded <= at
    ensures ParseFrom(text, at, decoded)
            == Ok(Body(text[..at + |g.Octets()|], at + |WriteChunks(g.chunks)|, decoded + DataLength(g.chunks),
                       HeadTail(g.last), WriteTrailers(g.trailers)))
    decreases |g.chunks|
  {
    hide ChunkLineOf;
    hide ParseFrom;
    hide LineEnd;
    hide WriteHead;
    hide WriteChunk;
    hide HeadTail;
    hide GoodField;
    hide SizeHead;
    hide WriteTrailers;
    hide At;
    if g.chunks == [] {
      LastChunkAccepted(text, at, g, decoded);
    } else {
      var c, tail := g.chunks[0], g.(chunks := g.chunks[1..]);
      OctetsStep(g);
      AtSplit(text, at, WriteChunk(c), tail.Octets());
      ChunkFound(text, at, c);
      Turn(text, at, decoded, at + |WriteHead(c.head)|, ChunkLine(|c.data|, HeadTail(c.head)));
      WrittenAccepted(text, at + |WriteChunk(c)|, tail, decoded + |c.data|);
    }
  }

  // ---- Everything accepted is written by the grammar ----

  /** Trailers that are accepted are written. */
  lemma {:induction false} TrailersWritten(bytes: seq<byte>, offset: nat) returns (trailers: seq<FieldText>)
    requires offset <= |bytes| && FieldsError(bytes, offset, true) == None
    ensures (forall f :: f in trailers ==> GoodField(f, true)) && WriteTrailers(trailers) == bytes[offset..]
    decreases |bytes| - offset
  {
    hide AcceptedLine;
    hide LineEnd;
    hide GoodField;
    hide WriteField;
    if offset == |bytes| {
      trailers := [];
    } else {
      var end := LineEnd(bytes, offset).value;
      FoundLineWritten(bytes, offset, end);
      var f := AcceptedFieldWritten(bytes[offset..end], true);
      var rest := TrailersWritten(bytes, end + 2);
      trailers := [f] + rest;
      assert trailers[1..] == rest;
      assert bytes[offset..] == bytes[offset..end + 2] + bytes[end + 2..];
    }
  }

  /** A line that was found is written where it was found. */
  lemma FoundLineWritten(text: seq<byte>, start: nat, end: nat)
    requires LineEnd(text, start) == Ok(end)
    ensures Unbroken(text[start..end]) && Line(text[start..end]) == text[start..end + 2]
  {
    LineEndExact(text, start, end);
  }

  lemma {:induction false} BlankLineWritten(text: seq<byte>, offset: nat)
    requires BlankLine(text, offset).Ok?
    ensures var blank := BlankLine(text, offset).value; text[blank..blank + 2] == CRLF
    decreases |text| - offset
  {
    var end := LineEnd(text, offset).value;
    FoundLineWritten(text, offset, end);
    if end != offset {
      BlankLineWritten(text, end + 2);
    } else {
      assert text[end..end + 2] == Line(text[offset..end]);
    }
  }

  lemma LastHeadRead(h: Head)
    requires GoodHead(h) && HexNumber(h.digits) == 0
    ensures LastHead(h)
  {
    ZeroExact(h.digits);
  }

  lemma LastChunkWritten(text: seq<byte>, offset: nat, decoded: nat, end: nat, line: ChunkLine) returns (g: Grammar)
    requires ParseFrom(text, offset, decoded).Ok? && LineEnd(text, offset) == Ok(end)
    requires ChunkLineOf(text[offset..end]) == Ok(line) && line.size == 0
    ensures g.Good() && g.chunks == []
    ensures var n := |ParseFrom(text, offset, decoded).value.bytes|;
            offset <= n <= |text| && g.Octets() == text[offset..n]
  {
    hide ChunkLineOf;
    hide FieldsError;
    hide ParseFrom;
    hide LineEnd;
    hide BlankLine;
    hide WriteHead;
    hide HeadTail;
    hide GoodHead;
    hide GoodField;
    hide LastHead;
    hide HexNumber;
    Turn(text, offset, decoded, end, line);
    var blank := BlankLine(text, end + 2).value;
    FoundLineWritten(text, offset, end);
    BlankLineWritten(text, end + 2);
    var last := HeadRead(text[offset..end]);
    var trailers := TrailersWritten(text[end + 2..blank], 0);
    LastHeadRead(last);
    g := Grammar([], last, trailers);
    assert text[end + 2..blank][0..] == text[end + 2..blank];
    assert text[offset..blank + 2] == text[offset..end + 2] + (text[end + 2..blank] + text[blank..blank + 2]);
  }

  lemma {:induction false} AcceptedWritten(text: seq<byte>, offset: nat, decoded: nat) returns (g: Grammar)
    requires ParseFrom(text, offset, decoded).Ok?
    ensures g.Good()
    ensures var n := |ParseFrom(text, offset, decoded).value.bytes|;
            offset <= n <= |text| && g.Octets() == text[offset..n]
    decreases |text| - offset
  {
    hide ChunkLineOf;
    hide ParseFrom;
    hide LineEnd;
    hide WriteHead;
    hide HeadTail;
    hide GoodHead;
    hide GoodField;
    var n := |ParseFrom(text, offset, decoded).value.bytes|;
    var end, line := FirstLine(text, offset, decoded);
    if line.size == 0 {
      g := LastChunkWritten(text, offset, decoded, end, line);
    } else {
      Turn(text, offset, decoded, end, line);
      var dataEnd := end + 2 + line.size;
      var tail := AcceptedWritten(text, dataEnd + 2, decoded + line.size);
      FoundLineWritten(text, offset, end);
      var head := HeadRead(text[offset..end]);
      var c := WrittenChunk(head, text[end + 2..dataEnd]);
      g := tail.(chunks := [c] + tail.chunks);
      assert g.chunks[1..] == tail.chunks;
      assert Line(c.data) == text[end + 2..dataEnd + 2];
      assert text[offset..n] == (text[offset..end + 2] + text[end + 2..dataEnd + 2]) + text[dataEnd + 2..n];
    }
  }

  // ---- What is written is read back ----

  /** What the iterator gives for chunks that were written. */
  function Yielded(chunks: seq<WrittenChunk>): (yielded: seq<Chunk>)
    ensures |yielded| == |chunks|
  {
    if chunks == [] then []
    else [Chunk(|chunks[0].data|, chunks[0].data, HeadTail(chunks[0].head))] + Yielded(chunks[1..])
  }

  /** The iterator finds the chunks that were written. */
  lemma {:induction false} ChunksRead(text: seq<byte>, at: nat, chunks: seq<WrittenChunk>)
    requires (forall c :: c in chunks ==> GoodChunk(c)) && |text| <= ISIZE_MAX
    requires At(text, at, WriteChunks(chunks)) && at + |WriteChunks(chunks)| == |text|
    ensures Chunked(text, at) && ChunksFrom(text, at) == Yielded(chunks)
    decreases |chunks|
  {
    hide ChunkLineOf;
    hide LineEnd;
    hide WriteHead;
    hide WriteChunk;
    hide HeadTail;
    hide SizeHead;
    hide At;
    if chunks != [] {
      var c := chunks[0];
      AtSplit(text, at, WriteChunk(c), WriteChunks(chunks[1..]));
      ChunkFound(text, at, c);
      var end, next := at + |WriteHead(c.head)|, at + |WriteChunk(c)|;
      ChunksRead(text, next, chunks[1..]);
      assert ChunkAt(text, at) == Some(Piece(end, ChunkLine(|c.data|, HeadTail(c.head)), next));
    }
  }

  /** A body that is written, followed by anything, is read back: its extent, length, chunks and trailers. */
  lemma RoundTrip(g: Grammar, input: seq<byte>)
    requires g.Good() && g.Octets() <= input && |input| <= ISIZE_MAX
    ensures ParseBody(input)
            == Ok(Body(g.Octets(), |WriteChunks(g.chunks)|, DataLength(g.chunks), HeadTail(g.last),
                       WriteTrailers(g.trailers)))
    ensures g.Octets()[..|WriteChunks(g.chunks)|] == WriteChunks(g.chunks)
    ensures Chunked(WriteChunks(g.chunks), 0) && ChunksFrom(WriteChunks(g.chunks), 0) == Yielded(g.chunks)
  {
    hide ParseFrom;
    hide SizeHead;
    hide Chunked;
    hide ChunksFrom;
    WrittenAccepted(input, 0, g, 0);
    ChunksRead(WriteChunks(g.chunks), 0, g.chunks);
  }

  /** The parser accepts exactly the inputs that begin with a body of the grammar. */
  lemma AcceptExact(input: seq<byte>)
    requires |input| <= ISIZE_MAX
    ensures ParseBody(input).Ok? <==> exists g: Grammar :: g.Good() && g.Octets() <= input
  {
    hide ParseFrom;
    if ParseBody(input).Ok? {
      var g := AcceptedWritten(input, 0, 0);
      assert g.Octets() <= input;
    }
    if g: Grammar :| g.Good() && g.Octets() <= input {
      RoundTrip(g, input);
    }
  }

  // ---- How far the parser goes beyond section 7.1 ----

  /** No extensions of the body end in whitespace, as its iterator yields them. */
  predicate Tight(b: Body) {
    && b.chunksEnd <= |b.bytes| && Chunked(b.bytes[..b.chunksEnd], 0)
    && (forall c :: c in ChunksFrom(b.bytes[..b.chunksEnd], 0) ==> !EndsInOws(c.extensions))
    && !EndsInOws(b.lastExtensions)
  }

  lemma {:induction false} YieldedTight(chunks: seq<WrittenChunk>)
    requires forall c :: c in chunks ==> GoodChunk(c)
    ensures (forall c :: c in Yielded(chunks) ==> !EndsInOws(c.extensions))
            <==> forall c :: c in chunks ==> c.head.trailing == []
    decreases |chunks|
  {
    hide HeadTail;
    hide EndsInOws;
    hide GoodHead;
    if chunks != [] {
      var c, rest := chunks[0], chunks[1..];
      assert GoodChunk(c);
      TrailingSeen(c.head);
      YieldedTight(rest);
      assert chunks == [c] + rest;
      assert Yielded(chunks) == [Chunk(|c.data|, c.data, HeadTail(c.head))] + Yielded(rest);
    }
  }

  /** A body of the grammar is of section 7.1 exactly when the parse of it is tight. */
  lemma TightExact(g: Grammar, input: seq<byte>)
    requires g.Good() && g.Octets() <= input && |input| <= ISIZE_MAX
    ensures ParseBody(input).Ok? && (g.Strict() <==> Tight(ParseBody(input).value))
  {
    hide ParseBody;
    hide HeadTail;
    hide EndsInOws;
    hide Chunked;
    hide ChunksFrom;
    hide WriteChunks;
    RoundTrip(g, input);
    YieldedTight(g.chunks);
    TrailingSeen(g.last);
  }

  /** The input begins with a body of section 7.1 exactly when it is accepted and no extensions end in whitespace. */
  lemma StrictExact(input: seq<byte>)
    requires |input| <= ISIZE_MAX
    ensures (exists g: Grammar :: g.Strict() && g.Octets() <= input)
            <==> ParseBody(input).Ok? && Tight(ParseBody(input).value)
  {
    hide ParseBody;
    hide Tight;
    if g: Grammar :| g.Strict() && g.Octets() <= input {
      TightExact(g, input);
    }
    if ParseBody(input).Ok? && Tight(ParseBody(input).value) {
      AcceptExact(input);
      var g: Grammar :| g.Good() && g.Octets() <= input;
      TightExact(g, input);
    }
  }

  /** A last line that ends in a space, and a blank line: accepted, and not of section 7.1. */
  lemma TrailingSpaceBody()
    ensures var input: seq<byte> := [48, SEMICOLON, 97, 32, CR, LF, CR, LF];
            ParseBody(input).Ok? && !exists g: Grammar :: g.Strict() && g.Octets() <= input
  {
    var input: seq<byte> := [48, SEMICOLON, 97, 32, CR, LF, CR, LF];
    var g := Grammar([], Head([48], [Extension([], [], [97], None)], [32]), []);
    assert WriteHead(g.last) == [48, SEMICOLON, 97, 32];
    assert g.Octets() == input;
    TightExact(g, input);
    StrictExact(input);
  }
}
