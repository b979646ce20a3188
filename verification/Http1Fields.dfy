/** RFC 9112 lines and field lines: finding line ends, validating fields, iterating them. */
module Http1Fields {
  import opened Machine

  const CR: byte := 13
  const LF: byte := 10
  const COLON: byte := 58

  datatype LineEndError = LineIncomplete | LineMalformed

  datatype Http1ParseError =
    | Incomplete(required: nat, available: nat)
    | InvalidField
    | InvalidTrailer
    | InvalidChunkSize
    | InvalidChunkTerminator
    | ChunkSizeOverflow
    | DecodedSizeOverflow

  // ---- Line ends ----

  /** The index of the CR that ends the line; a lone CR or LF is malformed. */
  function LineEnd(bytes: seq<byte>, start: nat): (r: Result<nat, LineEndError>)
    ensures r.Ok? ==> start <= r.value && r.value + 2 <= |bytes|
    decreases |bytes| - start
  {
    if start >= |bytes| then Err(LineIncomplete)
    else if bytes[start] == CR then
      if start + 1 == |bytes| then Err(LineIncomplete)
      else if bytes[start + 1] != LF then Err(LineMalformed)
      else Ok(start)
    else if bytes[start] == LF then Err(LineMalformed)
    else LineEnd(bytes, start + 1)
  }

  method FindLineEnd(bytes: seq<byte>, start: nat) returns (r: Result<nat, LineEndError>)
    ensures r == LineEnd(bytes, start)
  {
    var offset := start;
    while offset < |bytes|
      invariant LineEnd(bytes, offset) == LineEnd(bytes, start)
    {
      if bytes[offset] == CR {
        if offset + 1 == |bytes| {
          return Err(LineIncomplete);
        }
        if bytes[offset + 1] != LF {
          return Err(LineMalformed);
        }
        return Ok(offset);
      }
      if bytes[offset] == LF {
        return Err(LineMalformed);
      }
      offset := offset + 1;
    }
    return Err(LineIncomplete);
  }

  predicate Plain(bytes: seq<byte>, start: nat, end: nat) {
    end <= |bytes| && forall i :: start <= i < end ==> bytes[i] != CR && bytes[i] != LF
  }

  /** The line that starts here runs to the first CR LF, with neither octet before it. */
  predicate EndsAt(bytes: seq<byte>, start: nat, end: nat) {
    start <= end && end + 2 <= |bytes| && bytes[end] == CR && bytes[end + 1] == LF && Plain(bytes, start, end)
  }

  lemma {:induction false} LineEndExact(bytes: seq<byte>, start: nat, end: nat)
    ensures LineEnd(bytes, start) == Ok(end) <==> EndsAt(bytes, start, end)
    decreases |bytes| - start
  {
    if start < |bytes| && bytes[start] != CR && bytes[start] != LF {
      LineEndExact(bytes, start + 1, end);
    }
  }

  /** A line is incomplete exactly when what there is of it could still end well. */
  lemma {:induction false} LineIncompleteExact(bytes: seq<byte>, start: nat)
    requires start <= |bytes|
    ensures LineEnd(bytes, start) == Err(LineIncomplete) <==>
            Plain(bytes, start, |bytes|)
            || (start < |bytes| && bytes[|bytes| - 1] == CR && Plain(bytes, start, |bytes| - 1))
    decreases |bytes| - start
  {
    if start < |bytes| && bytes[start] != CR && bytes[start] != LF {
      LineIncompleteExact(bytes, start + 1);
    }
  }

  /** A line that has ended ends at the same place in everything that begins with the same octets. */
  lemma LineEndStable(bytes: seq<byte>, other: seq<byte>, start: nat, end: nat)
    requires LineEnd(bytes, start) == Ok(end)
    requires end + 2 <= |other| && other[..end + 2] == bytes[..end + 2]
    ensures LineEnd(other, start) == Ok(end) && other[start..end] == bytes[start..end]
  {
    LineEndExact(bytes, start, end);
    forall i | 0 <= i < end + 2
      ensures other[i] == bytes[i]
    {
      assert other[..end + 2][i] == bytes[..end + 2][i];
    }
    LineEndExact(other, start, end);
  }

  /** A line cut short anywhere before its LF is incomplete, never malformed. */
  lemma LineCut(bytes: seq<byte>, start: nat, end: nat, k: nat)
    requires LineEnd(bytes, start) == Ok(end) && start <= k < end + 2
    ensures LineEnd(bytes[..k], start) == Err(LineIncomplete)
  {
    LineEndExact(bytes, start, end);
    LineIncompleteExact(bytes[..k], start);
  }

  // ---- Field lines ----

  predicate IsToken(b: byte) {
    || b in {33, 35, 36, 37, 38, 39, 42, 43, 45, 46, 94, 95, 96, 124, 126}
    || 48 <= b <= 57 || 65 <= b <= 90 || 97 <= b <= 122
  }

  /** Section 5.6.2 of RFC 9110: the marks, the digits and the letters of a token. */
  lemma TokenExact(b: byte)
    ensures var c := b as char;
            IsToken(b) <==>
              c in "!#$%&'*+-.^_`|~" || '0' <= c <= '9' || 'a' <= c <= 'z' || 'A' <= c <= 'Z'
  {
    var marks := "!#$%&'*+-.^_`|~";
    if !(48 <= b <= 57 || 65 <= b <= 90 || 97 <= b <= 122) {
      if b as char in marks {
        var i :| 0 <= i < |marks| && marks[i] == b as char;
      }
      assert forall i :: 0 <= i < |marks| ==> marks[i] in marks;
      assert b == 33 ==> b as char == marks[0];
      assert b in {35, 36, 37, 38, 39} ==> b as char == marks[b - 34];
      assert b in {42, 43} ==> b as char == marks[b - 36];
      assert b in {45, 46} ==> b as char == marks[b - 37];
      assert b in {94, 95, 96} ==> b as char == marks[b - 84];
      assert b == 124 ==> b as char == marks[13];
      assert b == 126 ==> b as char == marks[14];
    }
  }

  predicate AllToken(octets: seq<byte>) { forall i :: 0 <= i < |octets| ==> IsToken(octets[i]) }

  /** The index of the first colon, or the length. */
  function Colon(line: seq<byte>): (colon: nat)
    ensures colon <= |line| && (colon < |line| ==> line[colon] == COLON)
    ensures forall i :: 0 <= i < colon ==> line[i] != COLON
  {
    if line == [] || line[0] == COLON then 0 else 1 + Colon(line[1..])
  }

  predicate ValidValueOctet(b: byte) { !(b <= 8 || 10 <= b <= 31 || b == 127) }

  /** Section 5.5 of RFC 9110: a value is made of tabs, spaces, visible characters and octets beyond ASCII. */
  lemma ValueOctetExact(b: byte)
    ensures ValidValueOctet(b) <==> b as char == '\t' || ' ' <= b as char <= '~' || b >= 0x80
  {
  }

  predicate ValidFieldLine(line: seq<byte>) {
    var colon := Colon(line);
    && 0 < colon < |line|
    && (forall i :: 0 <= i < colon ==> IsToken(line[i]))
    && forall i :: colon < i < |line| ==> ValidValueOctet(line[i])
  }

  function Lower(b: byte): byte { if 65 <= b <= 90 then b + 32 else b }

  predicate EqAsciiCase(left: seq<byte>, right: seq<byte>) {
    |left| == |right| && forall i :: 0 <= i < |left| ==> Lower(left[i]) == Lower(right[i])
  }

  function Capital(n: nat): char
    requires n < 26
  {
    "ABCDEFGHIJKLMNOPQRSTUVWXYZ"[n]
  }

  function Small(n: nat): char
    requires n < 26
  {
    "abcdefghijklmnopqrstuvwxyz"[n]
  }

  lemma Alphabet(n: nat)
    requires n < 26
    ensures Capital(n) as int == 65 + n && Small(n) as int == 97 + n
  {
  }

  /** The same octet, or the two cases of one letter. */
  predicate SameLetter(a: byte, b: byte) {
    || a == b
    || exists n: nat :: n < 26 && ((a as char == Capital(n) && b as char == Small(n))
                                   || (a as char == Small(n) && b as char == Capital(n)))
  }

  lemma LowerExact(a: byte, b: byte)
    ensures Lower(a) == Lower(b) <==> SameLetter(a, b)
  {
    hide Capital;
    hide Small;
    if Lower(a) == Lower(b) && a != b {
      Alphabet(Lower(a) - 97);
    }
    if n: nat :| n < 26 && ((a as char == Capital(n) && b as char == Small(n))
                            || (a as char == Small(n) && b as char == Capital(n))) {
      Alphabet(n);
    }
  }

  /** Two names are the same exactly when they agree letter by letter, whatever the case. */
  lemma EqAsciiCaseExact(left: seq<byte>, right: seq<byte>)
    ensures EqAsciiCase(left, right)
            <==> |left| == |right| && forall i :: 0 <= i < |left| ==> SameLetter(left[i], right[i])
  {
    hide Lower;
    hide SameLetter;
    forall i | 0 <= i < |left| && i < |right|
      ensures Lower(left[i]) == Lower(right[i]) <==> SameLetter(left[i], right[i])
    {
      LowerExact(left[i], right[i]);
    }
  }

  predicate ForbiddenName(name: seq<byte>) {
    || EqAsciiCase(name, Ascii("content-length")) || EqAsciiCase(name, Ascii("transfer-encoding"))
    || EqAsciiCase(name, Ascii("host")) || EqAsciiCase(name, Ascii("trailer")) || EqAsciiCase(name, Ascii("te"))
  }

  /** The five names, in any case. */
  lemma ForbiddenNames(name: seq<byte>)
    ensures EqAsciiCase(name, Ascii("Content-Length")) ==> ForbiddenName(name)
    ensures EqAsciiCase(name, Ascii("Transfer-Encoding")) ==> ForbiddenName(name)
    ensures EqAsciiCase(name, Ascii("Host")) ==> ForbiddenName(name)
    ensures EqAsciiCase(name, Ascii("Trailer")) ==> ForbiddenName(name)
    ensures EqAsciiCase(name, Ascii("TE")) ==> ForbiddenName(name)
    ensures |name| !in {2, 4, 7, 14, 17} ==> !ForbiddenName(name)
  {
  }

  predicate ForbiddenTrailer(line: seq<byte>) { ForbiddenName(line[..Colon(line)]) }

  predicate AcceptedLine(line: seq<byte>, trailer: bool) {
    ValidFieldLine(line) && !(trailer && ForbiddenTrailer(line))
  }

  /** A field line as it is written: a name, a colon and a value with the whitespace around it. */
  datatype FieldText = FieldText(name: seq<byte>, value: seq<byte>)

  predicate GoodField(f: FieldText, trailer: bool) {
    && f.name != [] && AllToken(f.name) && !(trailer && ForbiddenName(f.name))
    && forall i :: 0 <= i < |f.value| ==> ValidValueOctet(f.value[i])
  }

  function WriteField(f: FieldText): seq<byte> { f.name + ([COLON] + f.value) }

  lemma ColonOf(name: seq<byte>, value: seq<byte>)
    requires AllToken(name)
    ensures var line := name + ([COLON] + value);
            Colon(line) == |name| && line[..|name|] == name && line[|name| + 1..] == value
  {
    var line := name + ([COLON] + value);
    assert forall i :: 0 <= i < |name| ==> line[i] == name[i] && name[i] != COLON;
    assert line[|name|] == COLON;
  }

  /** A written field line is accepted. */
  lemma WrittenFieldAccepted(f: FieldText, trailer: bool)
    requires GoodField(f, trailer)
    ensures AcceptedLine(WriteField(f), trailer)
  {
    hide ForbiddenName;
    hide IsToken;
    var line := WriteField(f);
    ColonOf(f.name, f.value);
    forall i | |f.name| < i < |line|
      ensures ValidValueOctet(line[i])
    {
      assert line[i] == f.value[i - |f.name| - 1];
    }
    forall i | 0 <= i < |f.name|
      ensures IsToken(line[i])
    {
      assert line[i] == f.name[i];
    }
  }

  /** An accepted field line is written by its name and its value. */
  lemma AcceptedFieldWritten(line: seq<byte>, trailer: bool) returns (f: FieldText)
    requires AcceptedLine(line, trailer)
    ensures GoodField(f, trailer) && WriteField(f) == line
  {
    hide ForbiddenName;
    hide IsToken;
    var colon := Colon(line);
    f := FieldText(line[..colon], line[colon + 1..]);
    assert line == line[..colon] + ([line[colon]] + line[colon + 1..]);
  }

  /** The code accepts exactly the field lines that can be written, less the forbidden trailers. */
  lemma FieldLineExact(line: seq<byte>, trailer: bool)
    ensures AcceptedLine(line, trailer) <==> exists f :: GoodField(f, trailer) && WriteField(f) == line
  {
    if AcceptedLine(line, trailer) {
      var f := AcceptedFieldWritten(line, trailer);
    }
    if f :| GoodField(f, trailer) && WriteField(f) == line {
      WrittenFieldAccepted(f, trailer);
    }
  }

  // ---- Field sections ----

  /** What is wrong with the fields from `offset` on, if anything. */
  function FieldsError(bytes: seq<byte>, offset: nat, trailer: bool): Option<Http1ParseError>
    decreases |bytes| - offset
  {
    var invalid := if trailer then InvalidTrailer else InvalidField;
    if offset >= |bytes| then None
    else
      match LineEnd(bytes, offset)
      case Err(LineIncomplete) => Some(Incomplete(|bytes| + 1, |bytes|))
      case Err(LineMalformed) => Some(invalid)
      case Ok(end) =>
        if end == offset || !AcceptedLine(bytes[offset..end], trailer) then Some(invalid)
        else FieldsError(bytes, end + 2, trailer)
  }

  /** Whole lines that are accepted, and nothing else, stand from here to `k`. */
  predicate LinesUpTo(bytes: seq<byte>, offset: nat, k: nat, trailer: bool)
    decreases |bytes| - offset
  {
    || offset == k
    || (&& LineEnd(bytes, offset).Ok?
        && var end := LineEnd(bytes, offset).value;
           offset < end && AcceptedLine(bytes[offset..end], trailer) && LinesUpTo(bytes, end + 2, k, trailer))
  }

  /** A refused section has accepted lines up to some place, where the line is cut short, or it is at fault. */
  lemma {:induction false} FieldsRefused(bytes: seq<byte>, offset: nat, trailer: bool) returns (k: nat)
    requires FieldsError(bytes, offset, trailer).Some?
    ensures offset <= k < |bytes| && LinesUpTo(bytes, offset, k, trailer)
    ensures match FieldsError(bytes, offset, trailer).value
            case Incomplete(required, available) =>
              LineEnd(bytes, k) == Err(LineIncomplete) && available == |bytes| && required == |bytes| + 1
            case InvalidTrailer => trailer && FaultyLine(bytes, k, trailer)
            case InvalidField => !trailer && FaultyLine(bytes, k, trailer)
            case _ => false
    decreases |bytes| - offset
  {
    hide LineEnd;
    hide AcceptedLine;
    k := offset;
    if LineEnd(bytes, offset).Ok? {
      var end := LineEnd(bytes, offset).value;
      if offset < end && AcceptedLine(bytes[offset..end], trailer) {
        k := FieldsRefused(bytes, end + 2, trailer);
      }
    }
  }

  /** The line does not end well, or it is empty, or it is no field line that may stand here. */
  predicate FaultyLine(bytes: seq<byte>, k: nat, trailer: bool) {
    match LineEnd(bytes, k)
    case Err(e) => e == LineMalformed
    case Ok(end) => end == k || !AcceptedLine(bytes[k..end], trailer)
  }

  method ParseFields(bytes: seq<byte>, trailer: bool) returns (r: Result<(), Http1ParseError>)
    ensures match FieldsError(bytes, 0, trailer)
            case None => r == Ok(())
            case Some(e) => r == Err(e)
  {
    var invalid := if trailer then InvalidTrailer else InvalidField;
    var offset := 0;
    while offset < |bytes|
      invariant FieldsError(bytes, offset, trailer) == FieldsError(bytes, 0, trailer)
      decreases |bytes| - offset
    {
      var found := FindLineEnd(bytes, offset);
      if found == Err(LineIncomplete) {
        return Err(Incomplete(|bytes| + 1, |bytes|));
      }
      if found == Err(LineMalformed) {
        return Err(invalid);
      }
      var end := found.value;
      if end == offset {
        return Err(invalid);
      }
      var line := bytes[offset..end];
      if !ValidFieldLine(line) {
        return Err(invalid);
      }
      if trailer && ForbiddenTrailer(line) {
        return Err(InvalidTrailer);
      }
      offset := end + 2;
    }
    return Ok(());
  }

  /** The lines of an accepted field section. */
  function Lines(bytes: seq<byte>, offset: nat, trailer: bool): (lines: seq<seq<byte>>)
    requires FieldsError(bytes, offset, trailer) == None
    ensures forall line :: line in lines ==> AcceptedLine(line, trailer)
    decreases |bytes| - offset
  {
    if offset >= |bytes| then []
    else
      var end := LineEnd(bytes, offset).value;
      [bytes[offset..end]] + Lines(bytes, end + 2, trailer)
  }

  function Joined(lines: seq<seq<byte>>): seq<byte> {
    if lines == [] then [] else lines[0] + [CR, LF] + Joined(lines[1..])
  }

  /** The lines are all there is: with their ends they are the section again. */
  lemma {:induction false} LinesCover(bytes: seq<byte>, offset: nat, trailer: bool)
    requires offset <= |bytes| && FieldsError(bytes, offset, trailer) == None
    ensures Joined(Lines(bytes, offset, trailer)) == bytes[offset..]
    decreases |bytes| - offset
  {
    hide AcceptedLine;
    if offset < |bytes| {
      var end := LineEnd(bytes, offset).value;
      LineEndExact(bytes, offset, end);
      LinesCover(bytes, end + 2, trailer);
      var lines := Lines(bytes, offset, trailer);
      assert lines[1..] == Lines(bytes, end + 2, trailer);
      assert bytes[offset..] == bytes[offset..end] + [CR, LF] + bytes[end + 2..];
    }
  }

  /** A validated field line and where its colon is. */
  datatype Http1Field = Http1Field(line: seq<byte>, colon: nat)

  class Http1FieldIter {
    const bytes: seq<byte>
    var offset: nat
    ghost const trailer: bool
    ghost var rest: seq<seq<byte>>

    ghost predicate Valid()
      reads this
    {
      && offset <= |bytes| && FieldsError(bytes, offset, trailer) == None
      && rest == Lines(bytes, offset, trailer)
    }

    constructor (bytes: seq<byte>, ghost trailer: bool)
      requires FieldsError(bytes, 0, trailer) == None
      ensures Valid() && rest == Lines(bytes, 0, trailer) && this.bytes == bytes && this.trailer == trailer
    {
      this.bytes := bytes;
      this.trailer := trailer;
      this.offset := 0;
      this.rest := Lines(bytes, 0, trailer);
    }

    /** Yields the next line; it stops only after the last, and every line has its colon. */
    method Next() returns (r: Option<Http1Field>)
      requires Valid()
      modifies this
      ensures Valid()
      ensures if old(rest) == [] then r == None && rest == []
              else r == Some(Http1Field(old(rest)[0], Colon(old(rest)[0]))) && rest == old(rest)[1..]
      ensures r.Some? ==> 0 < r.value.colon < |r.value.line|
    {
      if offset == |bytes| {
        return None;
      }
      var found := FindLineEnd(bytes, offset);
      var end := found.value;
      var line := bytes[offset..end];
      offset := end + 2;
      rest := rest[1..];
      return Some(Http1Field(line, Colon(line)));
    }
  }
}
