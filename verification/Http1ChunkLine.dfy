/** RFC 9112 section 7.1 chunk lines: a hexadecimal size and extensions, as they are read and as they are written. */
module Http1ChunkLine {
  import opened Machine
  import opened Http1Fields
  import opened Http1Extensions

  /** A chunk line: the size, and the raw extensions behind it. */
  datatype ChunkLine = ChunkLine(size: nat, extensions: seq<byte>)

  // ---- Chunk sizes ----

  function HexValue(b: byte): (digit: Option<nat>)
    ensures digit.Some? ==> digit.value < 16
  {
    if 48 <= b <= 57 then Some(b - 48)
    else if 97 <= b <= 102 then Some(b - 97 + 10)
    else if 65 <= b <= 70 then Some(b - 65 + 10)
    else None
  }

  predicate Digits(digits: seq<byte>) {
    forall i :: 0 <= i < |digits| ==> HexValue(digits[i]).Some?
  }

  /** The number that hexadecimal digits write, most significant first. */
  function HexNumber(digits: seq<byte>): nat
    requires Digits(digits)
    decreases |digits|
  {
    var n := |digits| - 1;
    if digits == [] then 0 else HexNumber(digits[..n]) * 16 + HexValue(digits[n]).value
  }

  const LOWER_DIGITS := "0123456789abcdef"

  const UPPER_DIGITS := "0123456789ABCDEF"

  /** A digit has the value of its place among the sixteen, in either case. */
  lemma HexMeaning(n: nat)
    requires n < 16
    ensures HexValue(LOWER_DIGITS[n] as int) == Some(n) && HexValue(UPPER_DIGITS[n] as int) == Some(n)
  {
  }

  /** No other octet has a value. */
  lemma HexOnly(b: byte)
    requires HexValue(b).Some?
    ensures b as char == LOWER_DIGITS[HexValue(b).value] || b as char == UPPER_DIGITS[HexValue(b).value]
  {
  }

  /** The usual way to write a number, in hexadecimal. */
  function WriteHex(n: nat): (digits: seq<byte>)
    ensures digits != []
  {
    if n < 16 then [LOWER_DIGITS[n] as int] else WriteHex(n / 16) + [LOWER_DIGITS[n % 16] as int]
  }

  /** A written number is read back. */
  lemma {:induction false} HexReadBack(n: nat)
    ensures Digits(WriteHex(n)) && HexNumber(WriteHex(n)) == n
  {
    HexMeaning(n % 16);
    if n < 16 {
      assert WriteHex(n)[..0] == [];
    } else {
      HexReadBack(n / 16);
      assert WriteHex(n)[..|WriteHex(n)| - 1] == WriteHex(n / 16);
    }
  }

  /** Upper case digits write the same number. */
  lemma {:induction false} HexIgnoresCase(digits: seq<byte>, other: seq<byte>)
    requires Digits(digits) && |other| == |digits|
    requires forall i :: 0 <= i < |digits| ==> Lower(other[i]) == Lower(digits[i])
    ensures Digits(other) && HexNumber(other) == HexNumber(digits)
    decreases |digits|
  {
    if digits != [] {
      var n := |digits| - 1;
      HexIgnoresCase(digits[..n], other[..n]);
      assert other == other[..n] + [other[n]];
    }
  }

  /** How many digits a line begins with. */
  function HexRun(line: seq<byte>): (n: nat)
    ensures n <= |line| && Digits(line[..n])
    ensures n < |line| ==> HexValue(line[n]).None?
    decreases |line|
  {
    if line == [] || HexValue(line[0]).None? then 0
    else
      var n := 1 + HexRun(line[1..]);
      assert forall i :: 1 <= i < n ==> line[i] == line[1..][..n - 1][i - 1];
      n
  }

  /** Further digits never make a number smaller. */
  lemma {:induction false} HexGrows(digits: seq<byte>, k: nat)
    requires Digits(digits) && k <= |digits|
    ensures HexNumber(digits[..k]) <= HexNumber(digits)
    decreases |digits|
  {
    if k < |digits| {
      var n := |digits| - 1;
      assert digits[..n][..k] == digits[..k];
      HexGrows(digits[..n], k);
    } else {
      assert digits[..k] == digits;
    }
  }

  // ---- Reading a line ----

  /** Digits whose number fits a machine word, then valid extensions. */
  function ChunkLineOf(line: seq<byte>): (r: Result<ChunkLine, Http1ParseError>) {
    var n := HexRun(line);
    if n == 0 then Err(InvalidChunkSize)
    else if HexNumber(line[..n]) > USIZE_MAX then Err(ChunkSizeOverflow)
    else if !ValidExtensions(line[n..]) then Err(InvalidChunkSize)
    else Ok(ChunkLine(HexNumber(line[..n]), line[n..]))
  }

  /** The digit loop, checked at every step: it overflows exactly when the whole number does not fit. */
  method ParseChunkLine(line: seq<byte>) returns (r: Result<ChunkLine, Http1ParseError>)
    ensures r == ChunkLineOf(line)
  {
    ghost var n := HexRun(line);
    var offset := 0;
    var size := 0;
    while offset < |line| && HexValue(line[offset]).Some?
      invariant offset <= n && size == HexNumber(line[..offset]) <= USIZE_MAX
      decreases |line| - offset
    {
      RunHasDigit(line, offset);
      var next := size * 16 + HexValue(line[offset]).value;
      assert line[..offset + 1][..offset] == line[..offset];
      assert line[..n][..offset + 1] == line[..offset + 1];
      HexGrows(line[..n], offset + 1);
      if size * 16 > USIZE_MAX {
        return Err(ChunkSizeOverflow);
      }
      if next > USIZE_MAX {
        return Err(ChunkSizeOverflow);
      }
      size := next;
      offset := offset + 1;
    }
    RunStops(line, offset);
    if offset == 0 {
      return Err(InvalidChunkSize);
    }
    var valid := ValidateChunkExtensions(line[offset..]);
    if !valid {
      return Err(InvalidChunkSize);
    }
    return Ok(ChunkLine(size, line[offset..]));
  }

  lemma RunHasDigit(line: seq<byte>, offset: nat)
    requires offset <= HexRun(line) && offset < |line| && HexValue(line[offset]).Some?
    ensures offset < HexRun(line) && Digits(line[..offset + 1])
  {
    var n := HexRun(line);
    forall i | 0 <= i < offset
      ensures HexValue(line[i]).Some?
    {
      assert line[..n][i] == line[i];
    }
  }

  lemma RunStops(line: seq<byte>, offset: nat)
    requires offset <= HexRun(line) && (offset < |line| ==> HexValue(line[offset]).None?)
    ensures offset == HexRun(line)
  {
    var n := HexRun(line);
    assert forall i :: 0 <= i < n ==> HexValue(line[..n][i]) == HexValue(line[i]);
  }

  // ---- Writing a line ----

  /** A chunk line as it is written: hexadecimal digits, extensions, and whitespace behind the last extension. */
  datatype Head = Head(digits: seq<byte>, extensions: seq<Extension>, trailing: seq<byte>)

  predicate GoodHead(h: Head) {
    && h.digits != [] && Digits(h.digits) && GoodExtensions(h.extensions)
    && AllOws(h.trailing) && (h.extensions == [] ==> h.trailing == [])
  }

  /** What RFC 9112 section 7.1 allows: no whitespace behind the last extension. */
  predicate StrictHead(h: Head) { GoodHead(h) && h.trailing == [] }

  function HeadTail(h: Head): seq<byte> { WriteExtensions(h.extensions) + h.trailing }

  function WriteHead(h: Head): seq<byte> { h.digits + HeadTail(h) }

  /** No digit follows the digits. */
  lemma TailStarts(h: Head)
    requires GoodHead(h) && HeadTail(h) != []
    ensures HexValue(HeadTail(h)[0]).None?
  {
    var e := h.extensions[0];
    assert GoodExtension(e);
    assert HeadTail(h)[0] == if e.before == [] then SEMICOLON else e.before[0];
  }

  lemma HexRunOf(digits: seq<byte>, tail: seq<byte>)
    requires Digits(digits) && (tail != [] ==> HexValue(tail[0]).None?)
    ensures HexRun(digits + tail) == |digits|
    ensures (digits + tail)[..|digits|] == digits && (digits + tail)[|digits|..] == tail
  {
    var line := digits + tail;
    assert forall i :: 0 <= i < |digits| ==> line[i] == digits[i];
    RunStops(line, |digits|);
  }

  /** A written line is read back. */
  lemma HeadParsed(h: Head)
    requires GoodHead(h) && HexNumber(h.digits) <= USIZE_MAX
    ensures ChunkLineOf(WriteHead(h)) == Ok(ChunkLine(HexNumber(h.digits), HeadTail(h)))
  {
    if HeadTail(h) != [] {
      TailStarts(h);
    }
    HexRunOf(h.digits, HeadTail(h));
    assert Written(HeadTail(h), h.extensions, h.trailing);
    WrittenIsValid(HeadTail(h), h.extensions, h.trailing);
  }

  /** A line that is read can be written. */
  lemma HeadRead(line: seq<byte>) returns (h: Head)
    requires ChunkLineOf(line).Ok?
    ensures GoodHead(h) && WriteHead(h) == line && HexNumber(h.digits) <= USIZE_MAX
    ensures ChunkLineOf(line) == Ok(ChunkLine(HexNumber(h.digits), HeadTail(h)))
  {
    var n := HexRun(line);
    var extensions, trailing := ValidIsWritten(line[n..]);
    h := Head(line[..n], extensions, trailing);
  }

  /** The code reads exactly the lines that can be written, to their number and their extensions. */
  lemma ChunkLineExact(line: seq<byte>, size: nat, extensions: seq<byte>)
    ensures ChunkLineOf(line) == Ok(ChunkLine(size, extensions)) <==>
            exists h :: GoodHead(h) && WriteHead(h) == line && HeadTail(h) == extensions
                        && HexNumber(h.digits) == size <= USIZE_MAX
  {
    hide ChunkLineOf;
    hide WriteHead;
    hide HeadTail;
    if ChunkLineOf(line) == Ok(ChunkLine(size, extensions)) {
      var h := HeadRead(line);
    }
    if h :| GoodHead(h) && WriteHead(h) == line && HeadTail(h) == extensions
            && HexNumber(h.digits) == size <= USIZE_MAX {
      HeadParsed(h);
    }
  }

  predicate AllZeros(digits: seq<byte>) { forall i :: 0 <= i < |digits| ==> digits[i] == 48 }

  /** A size that is written is read back, up to the largest that fits a machine word and no further. */
  lemma SizeReadBack(size: nat)
    ensures ChunkLineOf(WriteHex(size)) ==
            if size <= USIZE_MAX then Ok(ChunkLine(size, [])) else Err(ChunkSizeOverflow)
  {
    HexReadBack(size);
    HexRunOf(WriteHex(size), []);
    assert WriteHex(size) + [] == WriteHex(size);
    assert WriteHex(size)[|WriteHex(size)|..] == [];
  }

  /** Only zeros write zero. */
  lemma {:induction false} ZeroExact(digits: seq<byte>)
    requires Digits(digits)
    ensures HexNumber(digits) == 0 <==> AllZeros(digits)
    decreases |digits|
  {
    if digits != [] {
      var n := |digits| - 1;
      ZeroExact(digits[..n]);
      assert forall i :: 0 <= i < n ==> digits[..n][i] == digits[i];
      assert HexValue(digits[n]).value == 0 <==> digits[n] == 48;
    }
  }

  // ---- Written lines have no line ends ----

  predicate Unbroken(octets: seq<byte>) { Plain(octets, 0, |octets|) }

  lemma UnbrokenConcat(a: seq<byte>, b: seq<byte>)
    requires Unbroken(a) && Unbroken(b)
    ensures Unbroken(a + b)
  {
  }

  lemma UnbrokenTokens(octets: seq<byte>)
    requires AllToken(octets) || AllOws(octets) || Digits(octets)
    ensures Unbroken(octets)
  {
  }

  lemma {:induction false} UnbrokenPieces(pieces: seq<QuotedPiece>)
    requires GoodPieces(pieces)
    ensures Unbroken(WritePieces(pieces))
    decreases |pieces|
  {
    if pieces != [] {
      UnbrokenPieces(pieces[1..]);
      assert pieces[0].Good();
      UnbrokenConcat(pieces[0].Octets(), WritePieces(pieces[1..]));
    }
  }

  lemma UnbrokenText(text: ValueText)
    requires GoodText(text)
    ensures Unbroken(WriteText(text))
  {
    if text.Token? {
      UnbrokenTokens(text.octets);
    } else {
      UnbrokenPieces(text.pieces);
      UnbrokenConcat(WritePieces(text.pieces), [QUOTE]);
      UnbrokenConcat([QUOTE], WritePieces(text.pieces) + [QUOTE]);
    }
  }

  lemma UnbrokenAssignment(a: Assignment)
    requires GoodAssignment(a)
    ensures Unbroken(WriteAssignment(a))
  {
    hide AllOws;
    hide GoodText;
    hide WriteText;
    var text := WriteText(a.text);
    assert Unbroken([EQUALS]);
    UnbrokenTokens(a.before);
    UnbrokenTokens(a.after);
    UnbrokenText(a.text);
    hide Unbroken;
    UnbrokenConcat(a.after, text);
    UnbrokenConcat([EQUALS], a.after + text);
    UnbrokenConcat(a.before, [EQUALS] + (a.after + text));
  }

  lemma UnbrokenCore(e: Extension)
    requires GoodExtension(e)
    ensures Unbroken(WriteCore(e))
  {
    hide AllOws;
    hide AllToken;
    hide GoodAssignment;
    hide WriteAssignment;
    var value := WriteValue(e.value);
    assert Unbroken([SEMICOLON]);
    assert Unbroken([]);
    UnbrokenTokens(e.after);
    UnbrokenTokens(e.name);
    hide Unbroken;
    if e.value.Some? {
      UnbrokenAssignment(e.value.value);
    }
    UnbrokenConcat(e.name, value);
    UnbrokenConcat(e.after, e.name + value);
    UnbrokenConcat([SEMICOLON], e.after + (e.name + value));
  }

  lemma {:induction false} UnbrokenExtensions(extensions: seq<Extension>)
    requires GoodExtensions(extensions)
    ensures Unbroken(WriteExtensions(extensions))
    decreases |extensions|
  {
    if extensions != [] {
      hide WriteCore;
      var e, rest := extensions[0], WriteExtensions(extensions[1..]);
      UnbrokenExtensions(extensions[1..]);
      assert GoodExtension(e);
      UnbrokenTokens(e.before);
      UnbrokenCore(e);
      hide Unbroken;
      UnbrokenConcat(WriteCore(e), rest);
      UnbrokenConcat(e.before, WriteCore(e) + rest);
    }
  }

  lemma UnbrokenHead(h: Head)
    requires GoodHead(h)
    ensures Unbroken(WriteHead(h))
  {
    UnbrokenTokens(h.digits);
    UnbrokenTokens(h.trailing);
    UnbrokenExtensions(h.extensions);
    hide Unbroken;
    UnbrokenConcat(WriteExtensions(h.extensions), h.trailing);
    UnbrokenConcat(h.digits, HeadTail(h));
  }

  // ---- How far the code goes beyond section 7.1 ----

  predicate EndsInOws(octets: seq<byte>) { octets != [] && IsOws(octets[|octets| - 1]) }

  lemma EndOf(a: seq<byte>, b: seq<byte>)
    ensures b != [] ==> (EndsInOws(a + b) <==> EndsInOws(b))
    ensures b == [] ==> (EndsInOws(a + b) <==> EndsInOws(a))
  {
    if b == [] {
      assert a + b == a;
    } else {
      assert (a + b)[|a + b| - 1] == b[|b| - 1];
    }
  }

  lemma AssignmentEnds(a: Assignment)
    requires GoodAssignment(a)
    ensures WriteAssignment(a) != [] && !EndsInOws(WriteAssignment(a))
  {
    var text := WriteText(a.text);
    if a.text.Quoted? {
      assert text == ([QUOTE] + WritePieces(a.text.pieces)) + [QUOTE];
      EndOf([QUOTE] + WritePieces(a.text.pieces), [QUOTE]);
    }
    assert WriteAssignment(a) == (a.before + ([EQUALS] + a.after)) + text;
    EndOf(a.before + ([EQUALS] + a.after), text);
  }

  lemma CoreEnds(e: Extension)
    requires GoodExtension(e)
    ensures WriteCore(e) != [] && !EndsInOws(WriteCore(e))
  {
    hide WriteAssignment;
    hide GoodAssignment;
    var value := WriteValue(e.value);
    if e.value.Some? {
      AssignmentEnds(e.value.value);
    }
    EndOf(e.name, value);
    EndOf([SEMICOLON] + e.after, e.name + value);
    assert WriteCore(e) == ([SEMICOLON] + e.after) + (e.name + value);
  }

  lemma {:induction false} ExtensionsEnd(extensions: seq<Extension>)
    requires GoodExtensions(extensions)
    ensures !EndsInOws(WriteExtensions(extensions))
    ensures extensions != [] ==> WriteExtensions(extensions) != []
    decreases |extensions|
  {
    if extensions != [] {
      hide WriteCore;
      hide EndsInOws;
      var e, rest := extensions[0], WriteExtensions(extensions[1..]);
      assert GoodExtension(e);
      CoreEnds(e);
      ExtensionsEnd(extensions[1..]);
      EndOf(WriteCore(e), rest);
      EndOf(e.before, WriteCore(e) + rest);
    }
  }

  /** Whitespace behind the last extension is seen at the end of what stands behind the digits, and only it is. */
  lemma TrailingSeen(h: Head)
    requires GoodHead(h)
    ensures EndsInOws(HeadTail(h)) <==> h.trailing != []
  {
    ExtensionsEnd(h.extensions);
    EndOf(WriteExtensions(h.extensions), h.trailing);
  }

  /**
   * The code accepts a line of section 7.1 exactly when it accepts the line and the line does not end in
   * whitespace.
   */
  lemma StrictLineExact(line: seq<byte>)
    ensures (exists h :: StrictHead(h) && HexNumber(h.digits) <= USIZE_MAX && WriteHead(h) == line)
            <==> ChunkLineOf(line).Ok? && !EndsInOws(line)
  {
    hide ChunkLineOf;
    if h :| StrictHead(h) && HexNumber(h.digits) <= USIZE_MAX && WriteHead(h) == line {
      HeadParsed(h);
      HeadEnd(h);
    }
    if ChunkLineOf(line).Ok? && !EndsInOws(line) {
      var h := HeadRead(line);
      HeadEnd(h);
      assert StrictHead(h);
    }
  }

  lemma HeadEnd(h: Head)
    requires GoodHead(h)
    ensures EndsInOws(WriteHead(h)) <==> h.trailing != []
  {
    TrailingSeen(h);
    EndOf(h.digits, HeadTail(h));
    assert HexValue(h.digits[|h.digits| - 1]).Some?;
  }

  /** A size, an extension and a space: the code accepts the line, and section 7.1 does not write it. */
  lemma TrailingSpaceAccepted()
    ensures ChunkLineOf([48, SEMICOLON, 97, 32]) == Ok(ChunkLine(0, [SEMICOLON, 97, 32]))
    ensures !exists h :: StrictHead(h) && HexNumber(h.digits) <= USIZE_MAX && WriteHead(h) == [48, SEMICOLON, 97, 32]
  {
    var line: seq<byte> := [48, SEMICOLON, 97, 32];
    var h := Head([48], [Extension([], [], [97], None)], [32]);
    assert HexNumber([48]) == 0;
    HeadParsed(h);
    assert HeadTail(h) == [SEMICOLON, 97, 32];
    assert WriteHead(h) == line;
    StrictLineExact(line);
  }
}
