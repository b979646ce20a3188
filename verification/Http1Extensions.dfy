/**
 * RFC 9112 section 7.1.1 chunk extensions: how they are written, how the code reads them, and
 * that it reads exactly what can be written, followed by optional whitespace.
 */
module Http1Extensions {
  import opened Machine
  import opened Http1Fields

  const SEMICOLON: byte := 59
  const EQUALS: byte := 61
  const QUOTE: byte := 34
  const BACKSLASH: byte := 92

  /** What a backslash may stand before: HTAB, SP, VCHAR and obs-text. */
  predicate IsEscapable(b: byte) { b == 9 || b == 32 || 0x21 <= b <= 0x7E || b >= 0x80 }

  /** What stands for itself between quotes. */
  predicate IsQuotedText(b: byte) { IsEscapable(b) && b != QUOTE && b != BACKSLASH }

  /** The characters of a quoted string, and the marks around it. */
  lemma CharactersExact(b: byte)
    ensures IsEscapable(b) <==> ValidValueOctet(b)
    ensures IsQuotedText(b) <==> ValidValueOctet(b) && b as char != '"' && b as char != '\\'
    ensures IsOws(b) <==> b as char == ' ' || b as char == '\t'
    ensures [SEMICOLON as char, EQUALS as char, QUOTE as char, BACKSLASH as char] == ";=\"\\"
    ensures [CR as char, LF as char, COLON as char] == "\r\n:"
  {
  }

  // ---- What is written ----

  datatype QuotedPiece = Itself(octet: byte) | Escaped(octet: byte) {
    predicate Good() { if Itself? then IsQuotedText(octet) else IsEscapable(octet) }

    function Octets(): seq<byte> { if Itself? then [octet] else [BACKSLASH, octet] }
  }

  function WritePieces(pieces: seq<QuotedPiece>): seq<byte> {
    if pieces == [] then [] else pieces[0].Octets() + WritePieces(pieces[1..])
  }

  predicate GoodPieces(pieces: seq<QuotedPiece>) { forall i :: 0 <= i < |pieces| ==> pieces[i].Good() }

  /** A token or a quoted string. */
  datatype ValueText = Token(octets: seq<byte>) | Quoted(pieces: seq<QuotedPiece>)

  predicate GoodText(text: ValueText) {
    if text.Token? then text.octets != [] && AllToken(text.octets) else GoodPieces(text.pieces)
  }

  function WriteText(text: ValueText): seq<byte> {
    if text.Token? then text.octets else [QUOTE] + (WritePieces(text.pieces) + [QUOTE])
  }

  /** `BWS "=" BWS` and a value. */
  datatype Assignment = Assignment(before: seq<byte>, after: seq<byte>, text: ValueText)

  predicate GoodAssignment(a: Assignment) { AllOws(a.before) && AllOws(a.after) && GoodText(a.text) }

  function WriteAssignment(a: Assignment): seq<byte> { a.before + ([EQUALS] + (a.after + WriteText(a.text))) }

  /** `BWS ";" BWS` and a name, and possibly a value. */
  datatype Extension = Extension(before: seq<byte>, after: seq<byte>, name: seq<byte>, value: Option<Assignment>)

  predicate GoodExtension(e: Extension) {
    && AllOws(e.before) && AllOws(e.after) && e.name != [] && AllToken(e.name)
    && (e.value.Some? ==> GoodAssignment(e.value.value))
  }

  function WriteValue(value: Option<Assignment>): seq<byte> {
    if value.Some? then WriteAssignment(value.value) else []
  }

  /** An extension without the whitespace before it. */
  function WriteCore(e: Extension): seq<byte> { [SEMICOLON] + (e.after + (e.name + WriteValue(e.value))) }

  function WriteExtensions(extensions: seq<Extension>): seq<byte> {
    if extensions == [] then []
    else extensions[0].before + (WriteCore(extensions[0]) + WriteExtensions(extensions[1..]))
  }

  predicate GoodExtensions(extensions: seq<Extension>) {
    forall i :: 0 <= i < |extensions| ==> GoodExtension(extensions[i])
  }

  /** Extensions with optional whitespace after the last: what the code lets through. */
  predicate Written(bytes: seq<byte>, extensions: seq<Extension>, trailing: seq<byte>) {
    && GoodExtensions(extensions) && AllOws(trailing) && (extensions == [] ==> trailing == [])
    && bytes == WriteExtensions(extensions) + trailing
  }

  // ---- What the code reads ----

  function OwsEnd(bytes: seq<byte>, offset: nat): (end: nat)
    ensures offset <= end && (offset <= |bytes| ==> end <= |bytes|)
    decreases |bytes| - offset
  {
    if offset < |bytes| && IsOws(bytes[offset]) then OwsEnd(bytes, offset + 1) else offset
  }

  function TokenEnd(bytes: seq<byte>, offset: nat): (end: nat)
    ensures offset <= end && (offset <= |bytes| ==> end <= |bytes|)
    decreases |bytes| - offset
  {
    if offset < |bytes| && IsToken(bytes[offset]) then TokenEnd(bytes, offset + 1) else offset
  }

  /** The end of a quoted string whose opening quote is before `offset`. */
  function QuotedEnd(bytes: seq<byte>, offset: nat): (end: Option<nat>)
    ensures end.Some? ==> offset < end.value <= |bytes|
    decreases |bytes| - offset
  {
    if offset >= |bytes| then None
    else if bytes[offset] == QUOTE then Some(offset + 1)
    else if bytes[offset] == BACKSLASH then
      if offset + 1 < |bytes| && IsEscapable(bytes[offset + 1]) then QuotedEnd(bytes, offset + 2) else None
    else if IsQuotedText(bytes[offset]) then QuotedEnd(bytes, offset + 1)
    else None
  }

  function NonemptyTokenEnd(bytes: seq<byte>, offset: nat): (end: Option<nat>)
    ensures end.Some? ==> offset < end.value && (offset <= |bytes| ==> end.value <= |bytes|)
  {
    var end := TokenEnd(bytes, offset);
    if end == offset then None else Some(end)
  }

  function ValueEnd(bytes: seq<byte>, offset: nat): (end: Option<nat>)
    ensures end.Some? ==> offset < end.value && (offset <= |bytes| ==> end.value <= |bytes|)
  {
    if offset < |bytes| && bytes[offset] == QUOTE then QuotedEnd(bytes, offset + 1)
    else NonemptyTokenEnd(bytes, offset)
  }

  /** One extension from its semicolon to the next, or to the end. */
  function ExtensionEnd(bytes: seq<byte>, offset: nat): (end: Option<nat>)
    requires offset < |bytes|
    ensures end.Some? ==> offset < end.value <= |bytes|
  {
    if bytes[offset] != SEMICOLON then None
    else
      match NonemptyTokenEnd(bytes, OwsEnd(bytes, offset + 1))
      case None => None
      case Some(nameEnd) =>
        var next := OwsEnd(bytes, nameEnd);
        if next < |bytes| && bytes[next] == EQUALS then
          match ValueEnd(bytes, OwsEnd(bytes, next + 1))
          case None => None
          case Some(valueEnd) => Some(OwsEnd(bytes, valueEnd))
        else Some(next)
  }

  predicate ExtensionsFrom(bytes: seq<byte>, offset: nat)
    decreases |bytes| - offset
  {
    offset >= |bytes| ||
    match ExtensionEnd(bytes, offset)
    case None => false
    case Some(end) => ExtensionsFrom(bytes, end)
  }

  predicate ValidExtensions(bytes: seq<byte>) {
    bytes == [] || (OwsEnd(bytes, 0) < |bytes| && ExtensionsFrom(bytes, OwsEnd(bytes, 0)))
  }

  // ---- Slices ----

  /** `x` stands at `i`. */
  predicate At(bytes: seq<byte>, i: nat, x: seq<byte>) {
    i + |x| <= |bytes| && bytes[i..i + |x|] == x
  }

  lemma AtSplit(bytes: seq<byte>, i: nat, x: seq<byte>, y: seq<byte>)
    ensures At(bytes, i, x + y) <==> At(bytes, i, x) && At(bytes, i + |x|, y)
    ensures At(bytes, i, x + y) ==> i + |x| + |y| <= |bytes|
  {
    var n, m := i + |x|, i + |x| + |y|;
    if m <= |bytes| {
      assert bytes[i..m] == bytes[i..n] + bytes[n..m];
      assert (x + y)[..|x|] == x && (x + y)[|x|..] == y;
    }
  }

  lemma AtOctet(bytes: seq<byte>, i: nat, x: seq<byte>, k: nat)
    requires At(bytes, i, x) && k < |x|
    ensures bytes[i + k] == x[k]
  {
    assert bytes[i..i + |x|][k] == bytes[i + k];
  }

  lemma AtTail(bytes: seq<byte>, i: nat, x: seq<byte>)
    requires At(bytes, i, x) && x != []
    ensures bytes[i] == x[0] && At(bytes, i + 1, x[1..])
  {
    assert x == [x[0]] + x[1..];
    AtSplit(bytes, i, [x[0]], x[1..]);
    AtOctet(bytes, i, x, 0);
  }

  /** An octet and two pieces behind it. */
  lemma AtMarked(bytes: seq<byte>, i: nat, mark: byte, x: seq<byte>, y: seq<byte>)
    requires At(bytes, i, [mark] + (x + y))
    ensures i + 1 + |x| + |y| <= |bytes| && bytes[i] == mark
    ensures At(bytes, i + 1, x) && At(bytes, i + 1 + |x|, y)
  {
    AtSplit(bytes, i, [mark], x + y);
    AtSplit(bytes, i + 1, x, y);
    AtOctet(bytes, i, [mark], 0);
  }

  // ---- Everything written is read ----

  lemma {:induction false} OwsAt(bytes: seq<byte>, i: nat, w: seq<byte>)
    requires At(bytes, i, w) && AllOws(w)
    requires i + |w| == |bytes| || !IsOws(bytes[i + |w|])
    ensures OwsEnd(bytes, i) == i + |w|
    decreases |w|
  {
    if w != [] {
      AtTail(bytes, i, w);
      OwsAt(bytes, i + 1, w[1..]);
    }
  }

  lemma {:induction false} TokenAt(bytes: seq<byte>, i: nat, t: seq<byte>)
    requires At(bytes, i, t) && AllToken(t)
    requires i + |t| == |bytes| || !IsToken(bytes[i + |t|])
    ensures TokenEnd(bytes, i) == i + |t|
    decreases |t|
  {
    if t != [] {
      AtTail(bytes, i, t);
      TokenAt(bytes, i + 1, t[1..]);
    }
  }

  /** One piece is passed over whole. */
  lemma PieceAt(bytes: seq<byte>, i: nat, p: QuotedPiece)
    requires p.Good() && At(bytes, i, p.Octets())
    ensures QuotedEnd(bytes, i) == QuotedEnd(bytes, i + |p.Octets()|)
  {
    AtOctet(bytes, i, p.Octets(), 0);
    if p.Escaped? {
      AtOctet(bytes, i, p.Octets(), 1);
    }
  }

  lemma {:induction false} PiecesAt(bytes: seq<byte>, i: nat, pieces: seq<QuotedPiece>)
    requires GoodPieces(pieces) && At(bytes, i, WritePieces(pieces) + [QUOTE])
    ensures QuotedEnd(bytes, i) == Some(i + |WritePieces(pieces)| + 1)
    decreases |pieces|
  {
    if pieces == [] {
      AtOctet(bytes, i, WritePieces(pieces) + [QUOTE], 0);
    } else {
      hide At;
      hide QuotedEnd;
      var p, rest := pieces[0], WritePieces(pieces[1..]) + [QUOTE];
      assert WritePieces(pieces) + [QUOTE] == p.Octets() + rest;
      AtSplit(bytes, i, p.Octets(), rest);
      PieceAt(bytes, i, p);
      PiecesAt(bytes, i + |p.Octets()|, pieces[1..]);
    }
  }

  /** A value ends where it is written to end, when nothing behind it could belong to a token. */
  lemma ValueAt(bytes: seq<byte>, i: nat, text: ValueText)
    requires GoodText(text) && At(bytes, i, WriteText(text))
    requires i + |WriteText(text)| == |bytes| || !IsToken(bytes[i + |WriteText(text)|])
    ensures ValueEnd(bytes, i) == Some(i + |WriteText(text)|)
  {
    AtTail(bytes, i, WriteText(text));
    if text.Token? {
      TokenAt(bytes, i, text.octets);
    } else {
      assert WriteText(text)[1..] == WritePieces(text.pieces) + [QUOTE];
      PiecesAt(bytes, i + 1, text.pieces);
    }
  }

  /** Nothing here belongs to a token or is whitespace: the end, or what must come next. */
  predicate Stops(bytes: seq<byte>, i: nat) {
    i == |bytes| || (i < |bytes| && bytes[i] == SEMICOLON)
  }

  /** Behind whitespace and before a stop no token goes on. */
  lemma OwsThenStop(bytes: seq<byte>, i: nat, w: seq<byte>)
    requires At(bytes, i, w) && AllOws(w) && Stops(bytes, i + |w|)
    ensures OwsEnd(bytes, i) == i + |w|
    ensures i == |bytes| || !IsToken(bytes[i])
  {
    OwsAt(bytes, i, w);
    if w != [] {
      AtOctet(bytes, i, w, 0);
    }
  }

  /** An assignment from `i` to `end`, part by part. */
  predicate AssignmentHere(bytes: seq<byte>, i: nat, a: Assignment, end: nat) {
    var equals := i + |a.before|;
    var start := equals + 1 + |a.after|;
    && start < |bytes| && end == start + |WriteText(a.text)| <= |bytes|
    && At(bytes, i, a.before) && At(bytes, equals + 1, a.after) && At(bytes, start, WriteText(a.text))
    && bytes[equals] == EQUALS && !IsToken(bytes[i]) && !IsOws(bytes[start])
  }

  lemma AssignmentParts(bytes: seq<byte>, i: nat, a: Assignment)
    requires GoodAssignment(a) && At(bytes, i, WriteAssignment(a))
    ensures AssignmentHere(bytes, i, a, i + |WriteAssignment(a)|)
  {
    hide At;
    hide AllOws;
    hide IsToken;
    hide WriteText;
    hide GoodText;
    var equals, text := i + |a.before|, WriteText(a.text);
    TextStarts(a.text);
    AtSplit(bytes, i, a.before, [EQUALS] + (a.after + text));
    AtMarked(bytes, equals, EQUALS, a.after, text);
    AtOctet(bytes, equals + 1 + |a.after|, text, 0);
    NoTokenFirst(bytes, i, a.before);
  }

  lemma TextStarts(text: ValueText)
    requires GoodText(text)
    ensures |WriteText(text)| > 0 && !IsOws(WriteText(text)[0])
  {
  }

  /** Whitespace and an equals sign end a name. */
  lemma NoTokenFirst(bytes: seq<byte>, i: nat, w: seq<byte>)
    requires At(bytes, i, w) && AllOws(w) && i + |w| < |bytes| && bytes[i + |w|] == EQUALS
    ensures !IsToken(bytes[i])
  {
    if w != [] {
      AtOctet(bytes, i, w, 0);
    }
  }

  /** A written assignment, and the whitespace behind it, are read to their ends. */
  lemma AssignmentAt(bytes: seq<byte>, i: nat, a: Assignment, end: nat, w: seq<byte>)
    requires GoodAssignment(a) && AssignmentHere(bytes, i, a, end)
    requires At(bytes, end, w) && AllOws(w) && Stops(bytes, end + |w|)
    ensures i < |bytes| && !IsToken(bytes[i])
    ensures OwsEnd(bytes, i) == i + |a.before| < |bytes| && bytes[i + |a.before|] == EQUALS
    ensures ValueEnd(bytes, OwsEnd(bytes, i + |a.before| + 1)) == Some(end)
    ensures OwsEnd(bytes, end) == end + |w|
  {
    hide At;
    hide AllOws;
    hide OwsEnd;
    hide ValueEnd;
    OwsAt(bytes, i, a.before);
    OwsAt(bytes, i + |a.before| + 1, a.after);
    OwsThenStop(bytes, end, w);
    ValueAt(bytes, i + |a.before| + 1 + |a.after|, a.text);
  }

  /** An extension from its semicolon to `end`, part by part. */
  predicate CoreHere(bytes: seq<byte>, i: nat, e: Extension, end: nat) {
    var start := i + 1 + |e.after|;
    var nameEnd := start + |e.name|;
    && start < nameEnd <= end <= |bytes|
    && At(bytes, i + 1, e.after) && At(bytes, start, e.name)
    && (if e.value.Some? then AssignmentHere(bytes, nameEnd, e.value.value, end) else nameEnd == end)
    && bytes[i] == SEMICOLON && !IsOws(bytes[start])
  }

  lemma NameParts(bytes: seq<byte>, i: nat, e: Extension)
    requires GoodExtension(e) && At(bytes, i, WriteCore(e))
    ensures var start := i + 1 + |e.after|;
            && start + |e.name| + |WriteValue(e.value)| == i + |WriteCore(e)| <= |bytes|
            && bytes[i] == SEMICOLON && !IsOws(bytes[start])
            && At(bytes, i + 1, e.after) && At(bytes, start, e.name)
            && At(bytes, start + |e.name|, WriteValue(e.value))
  {
    hide At;
    hide WriteValue;
    var start := i + 1 + |e.after|;
    AtMarked(bytes, i, SEMICOLON, e.after, e.name + WriteValue(e.value));
    AtSplit(bytes, start, e.name, WriteValue(e.value));
    AtOctet(bytes, start, e.name, 0);
  }

  lemma CoreParts(bytes: seq<byte>, i: nat, e: Extension)
    requires GoodExtension(e) && At(bytes, i, WriteCore(e))
    ensures CoreHere(bytes, i, e, i + |WriteCore(e)|)
  {
    hide At;
    hide AllOws;
    hide AllToken;
    hide WriteCore;
    hide AssignmentHere;
    hide WriteAssignment;
    hide GoodAssignment;
    NameParts(bytes, i, e);
    if e.value.Some? {
      AssignmentParts(bytes, i + 1 + |e.after| + |e.name|, e.value.value);
    }
  }

  lemma CoreEnd(bytes: seq<byte>, i: nat, e: Extension, end: nat, w: seq<byte>)
    requires GoodExtension(e) && CoreHere(bytes, i, e, end)
    requires At(bytes, end, w) && AllOws(w) && Stops(bytes, end + |w|)
    ensures i < |bytes| && bytes[i] == SEMICOLON && ExtensionEnd(bytes, i) == Some(end + |w|)
  {
    hide At;
    hide AllOws;
    hide AllToken;
    hide AssignmentHere;
    hide OwsEnd;
    hide TokenEnd;
    hide ValueEnd;
    var start := i + 1 + |e.after|;
    OwsAt(bytes, i + 1, e.after);
    if e.value.Some? {
      AssignmentAt(bytes, start + |e.name|, e.value.value, end, w);
    } else {
      OwsThenStop(bytes, end, w);
    }
    TokenAt(bytes, start, e.name);
  }

  /** An extension, and the whitespace behind it, are read in one turn. */
  lemma CoreAt(bytes: seq<byte>, i: nat, e: Extension, w: seq<byte>)
    requires GoodExtension(e) && At(bytes, i, WriteCore(e))
    requires At(bytes, i + |WriteCore(e)|, w) && AllOws(w) && Stops(bytes, i + |WriteCore(e)| + |w|)
    ensures i < |bytes| && bytes[i] == SEMICOLON
    ensures ExtensionEnd(bytes, i) == Some(i + |WriteCore(e)| + |w|)
  {
    CoreParts(bytes, i, e);
    hide At;
    hide CoreHere;
    hide ExtensionEnd;
    hide Stops;
    CoreEnd(bytes, i, e, i + |WriteCore(e)|, w);
  }

  lemma WrittenParts(extensions: seq<Extension>, trailing: seq<byte>)
    requires extensions != []
    ensures WriteExtensions(extensions) + trailing
            == extensions[0].before + (WriteCore(extensions[0]) + (WriteExtensions(extensions[1..]) + trailing))
    ensures WriteExtensions([]) + trailing == trailing
  {
    hide WriteCore;
    Grouped(extensions[0].before, WriteCore(extensions[0]), WriteExtensions(extensions[1..]), trailing);
    assert WriteExtensions([]) + trailing == trailing;
  }

  lemma Grouped(a: seq<byte>, b: seq<byte>, c: seq<byte>, d: seq<byte>)
    ensures (a + (b + c)) + d == a + (b + (c + d))
  {
  }

  lemma {:induction false} ExtensionsAt(bytes: seq<byte>, i: nat, extensions: seq<Extension>, trailing: seq<byte>)
    requires GoodExtensions(extensions) && extensions != [] && AllOws(trailing)
    requires At(bytes, i, WriteExtensions(extensions) + trailing)
             && i + |WriteExtensions(extensions) + trailing| == |bytes|
    ensures var start := i + |extensions[0].before|;
            && At(bytes, i, extensions[0].before) && start < |bytes| && bytes[start] == SEMICOLON
            && ExtensionsFrom(bytes, start)
    decreases |extensions|
  {
    hide At;
    hide AllOws;
    hide WriteExtensions;
    hide ExtensionEnd;
    var e, rest := extensions[0], WriteExtensions(extensions[1..]) + trailing;
    var start := i + |e.before|;
    WrittenParts(extensions, trailing);
    AtSplit(bytes, i, e.before, WriteCore(e) + rest);
    AtSplit(bytes, start, WriteCore(e), rest);
    assert GoodExtension(e);
    var next := start + |WriteCore(e)|;
    if |extensions| == 1 {
      assert extensions[1..] == [];
      CoreAt(bytes, start, e, trailing);
      assert next + |trailing| == |bytes|;
    } else {
      ExtensionsAt(bytes, next, extensions[1..], trailing);
      CoreAt(bytes, start, e, extensions[1].before);
    }
  }

  /** Everything that can be written is accepted. */
  lemma WrittenIsValid(bytes: seq<byte>, extensions: seq<Extension>, trailing: seq<byte>)
    requires Written(bytes, extensions, trailing)
    ensures ValidExtensions(bytes)
  {
    if extensions != [] {
      assert At(bytes, 0, bytes);
      ExtensionsAt(bytes, 0, extensions, trailing);
      OwsAt(bytes, 0, extensions[0].before);
    }
  }

  // ---- Everything read is written ----

  lemma {:induction false} OwsRead(bytes: seq<byte>, i: nat)
    requires i <= |bytes|
    ensures AllOws(bytes[i..OwsEnd(bytes, i)])
    decreases |bytes| - i
  {
    if i < |bytes| && IsOws(bytes[i]) {
      OwsRead(bytes, i + 1);
      assert bytes[i..OwsEnd(bytes, i)] == [bytes[i]] + bytes[i + 1..OwsEnd(bytes, i)];
    }
  }

  lemma {:induction false} TokenRead(bytes: seq<byte>, i: nat)
    requires i <= |bytes|
    ensures AllToken(bytes[i..TokenEnd(bytes, i)])
    ensures TokenEnd(bytes, i) == |bytes| || !IsToken(bytes[TokenEnd(bytes, i)])
    decreases |bytes| - i
  {
    if i < |bytes| && IsToken(bytes[i]) {
      TokenRead(bytes, i + 1);
      assert bytes[i..TokenEnd(bytes, i)] == [bytes[i]] + bytes[i + 1..TokenEnd(bytes, i)];
    }
  }

  lemma {:induction false} PiecesRead(bytes: seq<byte>, i: nat) returns (pieces: seq<QuotedPiece>)
    requires i <= |bytes| && QuotedEnd(bytes, i).Some?
    ensures GoodPieces(pieces) && bytes[i..QuotedEnd(bytes, i).value] == WritePieces(pieces) + [QUOTE]
    decreases |bytes| - i
  {
    var end := QuotedEnd(bytes, i).value;
    if bytes[i] == QUOTE {
      pieces := [];
    } else {
      var p := if bytes[i] == BACKSLASH then Escaped(bytes[i + 1]) else Itself(bytes[i]);
      var rest := PiecesRead(bytes, i + |p.Octets()|);
      pieces := [p] + rest;
      assert pieces[1..] == rest;
      assert bytes[i..end] == p.Octets() + bytes[i + |p.Octets()|..end];
    }
  }

  lemma ValueRead(bytes: seq<byte>, i: nat) returns (text: ValueText)
    requires i <= |bytes| && ValueEnd(bytes, i).Some?
    ensures var end := ValueEnd(bytes, i).value;
            && GoodText(text) && i <= end <= |bytes| && bytes[i..end] == WriteText(text)
            && (text.Token? ==> end == |bytes| || !IsToken(bytes[end]))
  {
    var end := ValueEnd(bytes, i).value;
    if i < |bytes| && bytes[i] == QUOTE {
      var pieces := PiecesRead(bytes, i + 1);
      text := Quoted(pieces);
      assert bytes[i..end] == [QUOTE] + bytes[i + 1..end];
    } else {
      TokenRead(bytes, i);
      text := Token(bytes[i..end]);
    }
  }

  lemma AssignmentRead(bytes: seq<byte>, i: nat, next: nat) returns (a: Assignment, end: nat)
    requires i <= next == OwsEnd(bytes, i) < |bytes| && bytes[next] == EQUALS
    requires ValueEnd(bytes, OwsEnd(bytes, next + 1)).Some?
    ensures GoodAssignment(a) && i <= end <= |bytes| && bytes[i..end] == WriteAssignment(a)
    ensures end == ValueEnd(bytes, OwsEnd(bytes, next + 1)).value
  {
    var start := OwsEnd(bytes, next + 1);
    end := ValueEnd(bytes, start).value;
    OwsRead(bytes, i);
    OwsRead(bytes, next + 1);
    hide OwsEnd;
    hide ValueEnd;
    hide AllOws;
    var text := ValueRead(bytes, start);
    a := Assignment(bytes[i..next], bytes[next + 1..start], text);
    AssignmentJoined(bytes, i, next, start, end);
  }

  /** One turn reads one extension and the whitespace behind it. */
  lemma CoreRead(bytes: seq<byte>, i: nat, before: seq<byte>) returns (e: Extension, w: seq<byte>)
    requires i < |bytes| && ExtensionEnd(bytes, i).Some? && AllOws(before)
    ensures GoodExtension(e) && e.before == before && AllOws(w)
    ensures bytes[i..ExtensionEnd(bytes, i).value] == WriteCore(e) + w
  {
    hide OwsEnd;
    hide TokenEnd;
    hide ValueEnd;
    var end := ExtensionEnd(bytes, i).value;
    var start := OwsEnd(bytes, i + 1);
    var nameEnd := TokenEnd(bytes, start);
    var next := OwsEnd(bytes, nameEnd);
    OwsRead(bytes, i + 1);
    TokenRead(bytes, start);
    hide AllOws;
    hide AllToken;
    var after, name := bytes[i + 1..start], bytes[start..nameEnd];
    if next < |bytes| && bytes[next] == EQUALS {
      var a, valueEnd := AssignmentRead(bytes, nameEnd, next);
      OwsRead(bytes, valueEnd);
      e, w := Extension(before, after, name, Some(a)), bytes[valueEnd..end];
      CoreJoined(bytes, i, start, nameEnd, valueEnd, end);
    } else {
      OwsRead(bytes, nameEnd);
      e, w := Extension(before, after, name, None), bytes[nameEnd..end];
      CoreJoined(bytes, i, start, nameEnd, nameEnd, end);
    }
  }

  lemma AssignmentJoined(bytes: seq<byte>, a: nat, b: nat, c: nat, d: nat)
    requires a <= b < c <= d <= |bytes|
    ensures bytes[a..d] == bytes[a..b] + ([bytes[b]] + (bytes[b + 1..c] + bytes[c..d]))
  {
  }

  lemma CoreJoined(bytes: seq<byte>, a: nat, b: nat, c: nat, d: nat, e: nat)
    requires a < b <= c <= d <= e <= |bytes|
    ensures bytes[a..e] == ([bytes[a]] + (bytes[a + 1..b] + (bytes[b..c] + bytes[c..d]))) + bytes[d..e]
  {
  }

  /** One extension in front of what was read behind it. */
  lemma ReadJoined(bytes: seq<byte>, i: nat, end: nat, e: Extension, w: seq<byte>,
                   rest: seq<Extension>, trailing: seq<byte>)
    requires i <= end <= |bytes| && bytes[i..end] == WriteCore(e) + w
    requires w + bytes[end..] == WriteExtensions(rest) + trailing
    ensures e.before + bytes[i..] == WriteExtensions([e] + rest) + trailing
  {
    hide WriteCore;
    assert ([e] + rest)[1..] == rest;
    assert WriteExtensions([e] + rest) == e.before + (WriteCore(e) + WriteExtensions(rest));
    hide WriteExtensions;
    assert bytes[i..] == bytes[i..end] + bytes[end..];
    Regrouped(e.before, WriteCore(e), w, bytes[end..], WriteExtensions(rest), trailing);
  }

  lemma {:induction false} ExtensionsRead(bytes: seq<byte>, i: nat, before: seq<byte>)
    returns (extensions: seq<Extension>, trailing: seq<byte>)
    requires i <= |bytes| && ExtensionsFrom(bytes, i) && AllOws(before)
    ensures GoodExtensions(extensions) && AllOws(trailing) && (i < |bytes| ==> extensions != [])
    ensures before + bytes[i..] == WriteExtensions(extensions) + trailing
    decreases |bytes| - i
  {
    if i == |bytes| {
      extensions, trailing := [], before;
      assert before + bytes[i..] == before == [] + before;
    } else {
      hide AllOws;
      hide ExtensionEnd;
      hide WriteCore;
      hide WriteExtensions;
      hide GoodExtension;
      var end := ExtensionEnd(bytes, i).value;
      var e, w := CoreRead(bytes, i, before);
      var rest;
      rest, trailing := ExtensionsRead(bytes, end, w);
      extensions := [e] + rest;
      ReadJoined(bytes, i, end, e, w, rest, trailing);
    }
  }

  lemma Regrouped(a: seq<byte>, b: seq<byte>, w: seq<byte>, c: seq<byte>, d: seq<byte>, e: seq<byte>)
    requires w + c == d + e
    ensures a + ((b + w) + c) == (a + (b + d)) + e
  {
    assert (b + w) + c == b + (w + c) == b + (d + e) == (b + d) + e;
  }

  /** Everything accepted can be written. */
  lemma ValidIsWritten(bytes: seq<byte>) returns (extensions: seq<Extension>, trailing: seq<byte>)
    requires ValidExtensions(bytes)
    ensures Written(bytes, extensions, trailing)
  {
    if bytes == [] {
      extensions, trailing := [], [];
    } else {
      hide WriteExtensions;
      hide GoodExtensions;
      hide ExtensionsFrom;
      hide AllOws;
      hide OwsEnd;
      var start := OwsEnd(bytes, 0);
      OwsRead(bytes, 0);
      extensions, trailing := ExtensionsRead(bytes, start, bytes[..start]);
      Halves(bytes, start);
    }
  }

  lemma Halves(bytes: seq<byte>, i: nat)
    requires i <= |bytes|
    ensures bytes[..i] + bytes[i..] == bytes
  {
  }

  // ---- Acceptance is exact ----

  /** The code accepts exactly the extensions that can be written, with optional whitespace behind the last. */
  lemma ExtensionsExact(bytes: seq<byte>)
    ensures ValidExtensions(bytes) <==> exists extensions, trailing :: Written(bytes, extensions, trailing)
  {
    hide ValidExtensions;
    hide Written;
    if ValidExtensions(bytes) {
      var extensions, trailing := ValidIsWritten(bytes);
    }
    if extensions, trailing :| Written(bytes, extensions, trailing) {
      WrittenIsValid(bytes, extensions, trailing);
    }
  }

  /** A value text from `start` to `end`: all of it, and for a token no more of it behind. */
  predicate Reads(bytes: seq<byte>, start: nat, end: nat, text: ValueText) {
    && GoodText(text) && start <= end <= |bytes| && bytes[start..end] == WriteText(text)
    && (text.Token? ==> end == |bytes| || !IsToken(bytes[end]))
  }

  /** A value ends exactly where a whole quoted string, or a whole run of token octets, ends. */
  lemma ValueExact(bytes: seq<byte>, start: nat, end: nat)
    requires start <= |bytes|
    ensures ValueEnd(bytes, start) == Some(end) <==> exists text :: Reads(bytes, start, end, text)
  {
    if ValueEnd(bytes, start) == Some(end) {
      var text := ValueRead(bytes, start);
      assert Reads(bytes, start, end, text);
    }
    if text :| Reads(bytes, start, end, text) {
      ReadIsEnd(bytes, start, end, text);
    }
  }

  lemma ReadIsEnd(bytes: seq<byte>, start: nat, end: nat, text: ValueText)
    requires Reads(bytes, start, end, text)
    ensures ValueEnd(bytes, start) == Some(end)
  {
    assert At(bytes, start, WriteText(text));
    AtTail(bytes, start, WriteText(text));
    if text.Token? {
      TokenAt(bytes, start, text.octets);
    } else {
      assert WriteText(text)[1..] == WritePieces(text.pieces) + [QUOTE];
      PiecesAt(bytes, start + 1, text.pieces);
    }
  }

  // ---- The loops ----

  method SkipOws(bytes: seq<byte>, start: nat) returns (offset: nat)
    ensures offset == OwsEnd(bytes, start)
    ensures start <= |bytes| ==>
              && start <= offset <= |bytes| && AllOws(bytes[start..offset])
              && (offset < |bytes| ==> !IsOws(bytes[offset]))
  {
    offset := start;
    while offset < |bytes| && IsOws(bytes[offset])
      invariant start <= offset && (start <= |bytes| ==> offset <= |bytes|)
      invariant OwsEnd(bytes, offset) == OwsEnd(bytes, start)
      decreases |bytes| - offset
    {
      offset := offset + 1;
    }
    if start <= |bytes| {
      OwsRead(bytes, start);
    }
  }

  method ParseToken(bytes: seq<byte>, start: nat) returns (end: Option<nat>)
    ensures end == NonemptyTokenEnd(bytes, start)
    ensures end.Some? && start <= |bytes| ==>
              && start < end.value <= |bytes| && AllToken(bytes[start..end.value])
              && (end.value < |bytes| ==> !IsToken(bytes[end.value]))
    ensures end.None? <==> start >= |bytes| || !IsToken(bytes[start])
  {
    var offset := start;
    while offset < |bytes| && IsToken(bytes[offset])
      invariant start <= offset && TokenEnd(bytes, offset) == TokenEnd(bytes, start)
      decreases |bytes| - offset
    {
      offset := offset + 1;
    }
    if start <= |bytes| {
      TokenRead(bytes, start);
    }
    return if offset == start then None else Some(offset);
  }

  lemma ValueMeaning(bytes: seq<byte>, start: nat)
    requires start <= |bytes|
    ensures var end := ValueEnd(bytes, start);
            && (end.Some? ==> exists text :: Reads(bytes, start, end.value, text))
            && (end.None? ==> forall e: nat, text :: !Reads(bytes, start, e, text))
  {
    if ValueEnd(bytes, start).Some? {
      ValueExact(bytes, start, ValueEnd(bytes, start).value);
    } else {
      forall e: nat, text | Reads(bytes, start, e, text)
        ensures false
      {
        ReadIsEnd(bytes, start, e, text);
      }
    }
  }

  /** Reads a token, or a quoted string with its escapes. */
  method ParseTokenOrQuoted(bytes: seq<byte>, start: nat) returns (end: Option<nat>)
    requires start <= |bytes|
    ensures end == ValueEnd(bytes, start)
    ensures end.Some? ==> exists text :: Reads(bytes, start, end.value, text)
    ensures end.None? ==> forall e: nat, text :: !Reads(bytes, start, e, text)
  {
    ValueMeaning(bytes, start);
    hide Reads;
    if start >= |bytes| || bytes[start] != QUOTE {
      end := ParseToken(bytes, start);
      return;
    }
    var offset := start + 1;
    while true
      invariant offset <= |bytes| && QuotedEnd(bytes, offset) == QuotedEnd(bytes, start + 1)
      decreases |bytes| - offset
    {
      if offset >= |bytes| {
        return None;
      }
      if bytes[offset] == QUOTE {
        return Some(offset + 1);
      }
      if bytes[offset] == BACKSLASH {
        if offset + 1 >= |bytes| || !IsEscapable(bytes[offset + 1]) {
          return None;
        }
        offset := offset + 2;
      } else if IsQuotedText(bytes[offset]) {
        offset := offset + 1;
      } else {
        return None;
      }
    }
  }

  /** One turn of the extension loop. */
  method ParseExtension(bytes: seq<byte>, offset: nat) returns (end: Option<nat>)
    requires offset < |bytes|
    ensures end == ExtensionEnd(bytes, offset)
  {
    hide OwsEnd;
    hide NonemptyTokenEnd;
    hide ValueEnd;
    hide AllOws;
    hide AllToken;
    hide IsToken;
    hide Reads;
    if bytes[offset] != SEMICOLON {
      return None;
    }
    var start := SkipOws(bytes, offset + 1);
    var name := ParseToken(bytes, start);
    if name == None {
      return None;
    }
    var next := SkipOws(bytes, name.value);
    if next < |bytes| && bytes[next] == EQUALS {
      var valueStart := SkipOws(bytes, next + 1);
      var value := ParseTokenOrQuoted(bytes, valueStart);
      if value == None {
        return None;
      }
      next := SkipOws(bytes, value.value);
    }
    return Some(next);
  }

  /** Accepts exactly the extensions that can be written, with optional whitespace behind the last. */
  method ValidateChunkExtensions(bytes: seq<byte>) returns (valid: bool)
    ensures valid <==> ValidExtensions(bytes)
    ensures valid <==> exists extensions, trailing :: Written(bytes, extensions, trailing)
  {
    ExtensionsExact(bytes);
    hide Written;
    hide ExtensionEnd;
    hide OwsEnd;
    if |bytes| == 0 {
      return true;
    }
    var offset := SkipOws(bytes, 0);
    if offset == |bytes| {
      return false;
    }
    while offset < |bytes|
      invariant offset <= |bytes| && ExtensionsFrom(bytes, offset) == ExtensionsFrom(bytes, OwsEnd(bytes, 0))
      decreases |bytes| - offset
    {
      var end := ParseExtension(bytes, offset);
      if end == None {
        return false;
      }
      offset := end.value;
    }
    return true;
  }
}
