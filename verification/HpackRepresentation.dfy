/** RFC 7541 sections 5.2 and 6: string literals and header-field representations. */
module HpackRepresentation {
  import opened Machine
  import opened HpackInteger

  // ---- String literals ----

  datatype StringError =
    | InvalidLength(error: IntegerError)
    | TotalLengthOverflow(lengthLength: nat, encodedLength: nat)
    | IncompleteEncodedPayload(required: nat, available: nat)

  datatype StringView = StringView(bytes: seq<byte>, length: IntegerView) {
    predicate IsHuffman() { length.highBits != 0 }

    function EncodedBytes(): seq<byte>
      requires |length.bytes| <= |bytes|
    {
      bytes[|length.bytes|..]
    }
  }

  function ParseString(bytes: seq<byte>): (r: Result<StringView, StringError>)
    ensures r.Ok? ==> |r.value.length.bytes| <= |r.value.bytes| <= |bytes|
    ensures r.Ok? ==> r.value.bytes == bytes[..|r.value.bytes|] && |r.value.bytes| >= 1
  {
    match ParseInteger(bytes, 7)
    case Err(e) => Err(InvalidLength(e))
    case Ok(length) =>
      var total := |length.bytes| + length.value;
      if total > USIZE_MAX then Err(TotalLengthOverflow(|length.bytes|, length.value))
      else if |bytes| < total then Err(IncompleteEncodedPayload(length.value, |bytes| - |length.bytes|))
      else Ok(StringView(bytes[..total], length))
  }

  function HuffmanFlag(huffman: bool): byte { if huffman then 0x80 else 0 }

  function EncodeString(payload: seq<byte>, huffman: bool): (octets: seq<byte>)
    ensures |octets| >= 1
  {
    EncodeInteger(|payload|, 7, HuffmanFlag(huffman)) + payload
  }

  /** The view of a printed string. */
  function PrintedString(payload: seq<byte>, huffman: bool): StringView
    requires |payload| < U64_LIMIT
  {
    var length := EncodeInteger(|payload|, 7, HuffmanFlag(huffman));
    StringView(length + payload, IntegerView(length, 7, |payload|, HuffmanFlag(huffman)))
  }

  /** A string is accepted exactly when its length integer is and that many octets follow it. */
  lemma StringExact(bytes: seq<byte>, size: nat)
    ensures var r := ParseString(bytes);
            (r.Ok? && |r.value.bytes| == size)
            <==> exists n, v :: Encodes(bytes, 7, v, n) && size == n + v && size <= |bytes| && size <= USIZE_MAX
  {
    var r := ParseString(bytes);
    if r.Ok? && |r.value.bytes| == size {
      ParseExact(bytes, 7, r.value.length.value, |r.value.length.bytes|);
    }
    if n, v :| Encodes(bytes, 7, v, n) && size == n + v && size <= |bytes| && size <= USIZE_MAX {
      ParseExact(bytes, 7, v, n);
    }
  }

  lemma StringRoundTrip(payload: seq<byte>, huffman: bool, suffix: seq<byte>)
    requires |EncodeString(payload, huffman)| <= USIZE_MAX
    ensures ParseString(EncodeString(payload, huffman) + suffix) == Ok(PrintedString(payload, huffman))
    ensures var view := PrintedString(payload, huffman);
            && view.bytes == EncodeString(payload, huffman)
            && view.IsHuffman() == huffman && view.EncodedBytes() == payload
  {
    var length := EncodeInteger(|payload|, 7, HuffmanFlag(huffman));
    var octets := EncodeString(payload, huffman);
    assert octets + suffix == length + (payload + suffix);
    RoundTrip(|payload|, 7, HuffmanFlag(huffman), payload + suffix);
    assert (octets + suffix)[..|octets|] == octets;
  }

  datatype StringBuildError = StringBufferTooShort(required: nat, available: nat)

  /** Frames an already coded payload at the front of the destination; on failure nothing is written. */
  method BuildString(destination: array<byte>, huffman: bool, encoded: seq<byte>)
    returns (r: Result<StringView, StringBuildError>)
    requires |encoded| <= ISIZE_MAX
    modifies destination
    ensures var total := |EncodeString(encoded, huffman)|;
            if destination.Length < total then
              r == Err(StringBufferTooShort(total, destination.Length)) && destination[..] == old(destination[..])
            else
              && r == Ok(PrintedString(encoded, huffman))
              && destination[..] == Splice(old(destination[..]), 0, EncodeString(encoded, huffman))
  {
    hide EncodeInteger;
    var lengthLen := EncodedLen(|encoded|, 7);
    PrefixLength(|encoded|, 7, HuffmanFlag(huffman));
    var total := lengthLen + |encoded|;
    if destination.Length < total {
      return Err(StringBufferTooShort(total, destination.Length));
    }
    SpliceAppend(destination[..], 0, EncodeInteger(|encoded|, 7, HuffmanFlag(huffman)), encoded);
    WriteCanonical(destination, 0, 7, HuffmanFlag(huffman), |encoded|);
    CopyFromSlice(destination, lengthLen, encoded);
    return Ok(PrintedString(encoded, huffman));
  }

  // ---- Representations ----

  datatype LiteralMode = IncrementalIndexing | WithoutIndexing | NeverIndexed

  datatype Representation =
    | Indexed(index: IntegerView)
    | Literal(bytes: seq<byte>, mode: LiteralMode, nameIndex: IntegerView, name: Option<StringView>, text: StringView)
    | SizeUpdate(size: IntegerView)
  {
    function AsBytes(): seq<byte> {
      match this
      case Indexed(index) => index.bytes
      case Literal(bytes, _, _, _, _) => bytes
      case SizeUpdate(size) => size.bytes
    }
  }

  datatype RepresentationError =
    | IndexedIndex(integer: IntegerError)
    | IndexedFieldZero
    | LiteralNameIndex(integer: IntegerError)
    | LiteralName(string_: StringError)
    | LiteralValue(string_: StringError)
    | DynamicTableSize(integer: IntegerError)
    | LengthOverflow

  function PrefixBits(mode: LiteralMode): (n: byte)
    ensures ValidPrefix(n)
  {
    match mode
    case IncrementalIndexing => 6
    case WithoutIndexing => 4
    case NeverIndexed => 4
  }

  function Flags(mode: LiteralMode): (high: byte)
    ensures HighBits(high, PrefixBits(mode))
  {
    match mode
    case IncrementalIndexing => 0x40
    case WithoutIndexing => 0
    case NeverIndexed => 0x10
  }

  function ParseIndexed(bytes: seq<byte>): Result<Representation, RepresentationError> {
    match ParseInteger(bytes, 7)
    case Err(e) => Err(IndexedIndex(e))
    case Ok(index) => if index.value == 0 then Err(IndexedFieldZero) else Ok(Indexed(index))
  }

  function ParseSizeUpdate(bytes: seq<byte>): Result<Representation, RepresentationError> {
    match ParseInteger(bytes, 5)
    case Err(e) => Err(DynamicTableSize(e))
    case Ok(size) => Ok(SizeUpdate(size))
  }

  /** The literal name, present when the name index is zero. */
  function ParseName(bytes: seq<byte>, nameIndex: nat): (r: Result<Option<StringView>, RepresentationError>)
    ensures r.Ok? && r.value.Some? ==> |r.value.value.bytes| <= |bytes|
  {
    if nameIndex != 0 then Ok(None)
    else
      match ParseString(bytes)
      case Err(e) => Err(LiteralName(e))
      case Ok(name) => Ok(Some(name))
  }

  function NameLen(name: Option<StringView>): nat {
    match name
    case None => 0
    case Some(view) => |view.bytes|
  }

  function ParseLiteral(bytes: seq<byte>, mode: LiteralMode): (r: Result<Representation, RepresentationError>) {
    match ParseInteger(bytes, PrefixBits(mode))
    case Err(e) => Err(LiteralNameIndex(e))
    case Ok(nameIndex) =>
      var afterIndex := bytes[|nameIndex.bytes|..];
      match ParseName(afterIndex, nameIndex.value)
      case Err(e) => Err(e)
      case Ok(name) =>
        match ParseString(afterIndex[NameLen(name)..])
        case Err(e) => Err(LiteralValue(e))
        case Ok(text) =>
          var total := |nameIndex.bytes| + NameLen(name) + |text.bytes|;
          if total > USIZE_MAX then Err(LengthOverflow)
          else Ok(Literal(bytes[..total], mode, nameIndex, name, text))
  }

  datatype Kind = IndexedKind | LiteralKind(mode: LiteralMode) | SizeUpdateKind

  /** The first set bit from the top selects the representation. */
  function KindOf(first: byte): (kind: Kind) {
    if (first / 0x80) % 2 == 1 then IndexedKind
    else if (first / 0x40) % 2 == 1 then LiteralKind(IncrementalIndexing)
    else if (first / 0x20) % 2 == 1 then SizeUpdateKind
    else if (first / 0x10) % 2 == 1 then LiteralKind(NeverIndexed)
    else LiteralKind(WithoutIndexing)
  }

  function ParseRepresentation(bytes: seq<byte>): (r: Result<Representation, RepresentationError>) {
    if bytes == [] then Err(IndexedIndex(Incomplete(1, 0)))
    else
      match KindOf(bytes[0])
      case IndexedKind => ParseIndexed(bytes)
      case LiteralKind(mode) => ParseLiteral(bytes, mode)
      case SizeUpdateKind => ParseSizeUpdate(bytes)
  }

  /** An accepted representation is a nonempty exact prefix of the input. */
  lemma ParsedIsPrefix(bytes: seq<byte>)
    requires ParseRepresentation(bytes).Ok?
    ensures var octets := ParseRepresentation(bytes).value.AsBytes();
            1 <= |octets| <= |bytes| && octets == bytes[..|octets|]
  {
    hide ParseTail;
    hide KindOf;
  }

  /** An indexed field names an entry, whose indices begin at one; and what is accepted can be counted. */
  lemma ParsedMeaning(bytes: seq<byte>)
    requires ParseRepresentation(bytes).Ok?
    ensures var r := ParseRepresentation(bytes).value;
            && (r.Indexed? ==> r.index.value >= 1)
            && (r.Literal? ==> |r.bytes| <= USIZE_MAX && (r.name.Some? <==> r.nameIndex.value == 0))
  {
    hide ParseInteger;
    hide ParseString;
    hide KindOf;
  }

  /** An indexed field of index zero is refused by its name, and nothing else is. */
  lemma ZeroIndexRefused(bytes: seq<byte>)
    ensures ParseRepresentation(bytes) == Err(IndexedFieldZero) <==>
            bytes != [] && bytes[0] >= 128 && ParseInteger(bytes, 7).Ok? && ParseInteger(bytes, 7).value.value == 0
  {
    hide ParseInteger;
    hide ParseString;
  }

  // ---- Framing: what follows a representation does not matter ----

  lemma IntegerIgnoresSuffix(bytes: seq<byte>, prefixBits: byte, other: seq<byte>)
    requires ValidPrefix(prefixBits) && ParseInteger(bytes, prefixBits).Ok?
    requires var n := |ParseInteger(bytes, prefixBits).value.bytes|; n <= |other| && other[..n] == bytes[..n]
    ensures ParseInteger(other, prefixBits) == ParseInteger(bytes, prefixBits)
  {
    var view := ParseInteger(bytes, prefixBits).value;
    var n := |view.bytes|;
    ParseExact(bytes, prefixBits, view.value, n);
    assert bytes[1..n] == bytes[..n][1..] && other[1..n] == other[..n][1..];
    assert bytes[0] == bytes[..n][0] && other[0] == other[..n][0];
    ParseExact(other, prefixBits, view.value, n);
  }

  lemma StringIgnoresSuffix(bytes: seq<byte>, other: seq<byte>)
    requires ParseString(bytes).Ok?
    requires var n := |ParseString(bytes).value.bytes|; n <= |other| && other[..n] == bytes[..n]
    ensures ParseString(other) == ParseString(bytes)
  {
    var view := ParseString(bytes).value;
    var n, k := |view.bytes|, |view.length.bytes|;
    assert other[..k] == other[..n][..k] == bytes[..n][..k] == bytes[..k];
    IntegerIgnoresSuffix(bytes, 7, other);
  }

  lemma LiteralIgnoresSuffix(bytes: seq<byte>, mode: LiteralMode, other: seq<byte>)
    requires ParseLiteral(bytes, mode).Ok?
    requires var n := |ParseLiteral(bytes, mode).value.AsBytes()|; n <= |other| && other[..n] == bytes[..n]
    ensures ParseLiteral(other, mode) == ParseLiteral(bytes, mode)
  {
    hide ParseInteger;
    hide ParseString;
    var view := ParseLiteral(bytes, mode).value;
    var n, i, m := |view.bytes|, |view.nameIndex.bytes|, NameLen(view.name);
    AgreeBelow(bytes, other, n, 0, i);
    assert bytes[0..i] == bytes[..i] && other[0..i] == other[..i];
    IntegerIgnoresSuffix(bytes, PrefixBits(mode), other);
    var after, after' := bytes[i..], other[i..];
    if view.name.Some? {
      AgreeBelow(bytes, other, n, i, i + m);
      assert after[..m] == bytes[i..i + m] && after'[..m] == other[i..i + m];
      StringIgnoresSuffix(after, after');
    }
    var k := |view.text.bytes|;
    AgreeBelow(bytes, other, n, i + m, n);
    assert after[m..][..k] == bytes[i + m..n] && after'[m..][..k] == other[i + m..n];
    StringIgnoresSuffix(after[m..], after'[m..]);
  }

  lemma AgreeBelow(a: seq<byte>, b: seq<byte>, n: nat, from: nat, to: nat)
    requires from <= to <= n <= |a| && n <= |b| && a[..n] == b[..n]
    ensures a[from..to] == b[from..to]
  {
    assert a[from..to] == a[..n][from..to];
    assert b[from..to] == b[..n][from..to];
  }

  /** Exact framing: any input that starts with the octets of an accepted representation parses to it. */
  lemma FramingExact(bytes: seq<byte>, suffix: seq<byte>)
    requires ParseRepresentation(bytes).Ok?
    ensures var r := ParseRepresentation(bytes).value; ParseRepresentation(r.AsBytes() + suffix) == Ok(r)
  {
    ParsedIsPrefix(bytes);
    var r := ParseRepresentation(bytes).value;
    var other := r.AsBytes() + suffix;
    assert other[..|r.AsBytes()|] == r.AsBytes();
    assert other[0] == bytes[0];
    match r
    case Indexed(index) => IntegerIgnoresSuffix(bytes, 7, other);
    case SizeUpdate(size) => IntegerIgnoresSuffix(bytes, 5, other);
    case Literal(_, mode, _, _, _) => LiteralIgnoresSuffix(bytes, mode, other);
  }

  // ---- Framing: nothing short of a representation is one ----

  predicate ShortInteger(e: IntegerError) { e.Incomplete? && e.required == e.available + 1 }

  predicate ShortString(e: StringError) {
    match e
    case InvalidLength(integer) => ShortInteger(integer)
    case TotalLengthOverflow(_, _) => false
    case IncompleteEncodedPayload(required, available) => available < required
  }

  /** The error says that octets are missing, and nothing else. */
  predicate Short(e: RepresentationError) {
    match e
    case IndexedIndex(integer) => ShortInteger(integer)
    case LiteralNameIndex(integer) => ShortInteger(integer)
    case DynamicTableSize(integer) => ShortInteger(integer)
    case LiteralName(string_) => ShortString(string_)
    case LiteralValue(string_) => ShortString(string_)
    case IndexedFieldZero => false
    case LengthOverflow => false
  }

  lemma StringCut(bytes: seq<byte>, k: nat)
    requires ParseString(bytes).Ok? && k < |ParseString(bytes).value.bytes|
    ensures ParseString(bytes[..k]).Err? && ShortString(ParseString(bytes[..k]).error)
  {
    hide ParseInteger;
    var n := |ParseInteger(bytes, 7).value.bytes|;
    if k < n {
      CutIsIncomplete(bytes, 7, k);
    } else {
      assert bytes[..k][..n] == bytes[..n];
      IntegerIgnoresSuffix(bytes, 7, bytes[..k]);
    }
  }

  lemma LiteralCut(bytes: seq<byte>, mode: LiteralMode, k: nat)
    requires ParseLiteral(bytes, mode).Ok? && k < |ParseLiteral(bytes, mode).value.AsBytes()|
    ensures ParseLiteral(bytes[..k], mode).Err? && Short(ParseLiteral(bytes[..k], mode).error)
  {
    hide ParseInteger;
    hide ParseString;
    var view := ParseLiteral(bytes, mode).value;
    var i, m := |view.nameIndex.bytes|, NameLen(view.name);
    var cut := bytes[..k];
    if k < i {
      CutIsIncomplete(bytes, PrefixBits(mode), k);
    } else {
      assert cut[..i] == bytes[..i];
      IntegerIgnoresSuffix(bytes, PrefixBits(mode), cut);
      var after := bytes[i..];
      assert cut[i..] == after[..k - i];
      if k < i + m {
        StringCut(after, k - i);
      } else {
        if view.name.Some? {
          assert after[..k - i][..m] == after[..m];
          StringIgnoresSuffix(after, after[..k - i]);
        }
        assert after[..k - i][m..] == after[m..][..k - i - m];
        StringCut(after[m..], k - i - m);
      }
    }
  }

  /** An accepted representation that is cut short anywhere, even to nothing, is refused for the octets it lacks. */
  lemma CutIsShort(bytes: seq<byte>, k: nat)
    requires ParseRepresentation(bytes).Ok? && k < |ParseRepresentation(bytes).value.AsBytes()|
    ensures var r := ParseRepresentation(bytes[..k]); r.Err? && Short(r.error)
  {
    hide ParseInteger;
    hide ParseLiteral;
    hide KindOf;
    ParsedIsPrefix(bytes);
    if k > 0 {
      assert bytes[..k][0] == bytes[0];
      match KindOf(bytes[0])
      case IndexedKind => CutIsIncomplete(bytes, 7, k);
      case SizeUpdateKind => CutIsIncomplete(bytes, 5, k);
      case LiteralKind(mode) => LiteralCut(bytes, mode, k);
    }
  }

  // ---- Printing, and parsing it back ----

  /** An emitted string: its payload, already Huffman coded when `huffman` says so. */
  datatype Text = Text(payload: seq<byte>, huffman: bool)

  function PrintIndexed(index: nat): (octets: seq<byte>)
    ensures |octets| >= 1
  {
    EncodeInteger(index, 7, 0x80)
  }

  function PrintSizeUpdate(size: nat): (octets: seq<byte>)
    ensures |octets| >= 1
  {
    EncodeInteger(size, 5, 0x20)
  }

  function PrintName(name: Option<Text>): seq<byte> {
    match name
    case None => []
    case Some(text) => EncodeString(text.payload, text.huffman)
  }

  function PrintLiteral(mode: LiteralMode, nameIndex: nat, name: Option<Text>, text: Text): (octets: seq<byte>)
    ensures |octets| >= 1
  {
    EncodeInteger(nameIndex, PrefixBits(mode), Flags(mode)) + PrintName(name) + EncodeString(text.payload, text.huffman)
  }

  /** The first octet of a printed integer carries the high bits. */
  lemma FirstOctet(value: nat, prefixBits: int, highBits: byte)
    requires ValidPrefix(prefixBits) && HighBits(highBits, prefixBits)
    ensures highBits <= EncodeInteger(value, prefixBits, highBits)[0] <= highBits + Mask(prefixBits)
  {
  }

  lemma FirstKind(first: byte)
    ensures first >= 0x80 ==> KindOf(first) == IndexedKind
    ensures 0x40 <= first < 0x80 ==> KindOf(first) == LiteralKind(IncrementalIndexing)
    ensures 0x20 <= first < 0x40 ==> KindOf(first) == SizeUpdateKind
    ensures 0x10 <= first < 0x20 ==> KindOf(first) == LiteralKind(NeverIndexed)
    ensures first < 0x10 ==> KindOf(first) == LiteralKind(WithoutIndexing)
  {
  }

  lemma IndexedRoundTrip(index: u64, suffix: seq<byte>)
    requires index != 0
    ensures var octets := PrintIndexed(index);
            ParseRepresentation(octets + suffix) == Ok(Indexed(IntegerView(octets, 7, index, 0x80)))
  {
    hide KindOf;
    hide ParseInteger;
    FirstOctet(index, 7, 0x80);
    var octets := PrintIndexed(index);
    FirstKind(octets[0]);
    RoundTrip(index, 7, 0x80, suffix);
    assert (octets + suffix)[0] == octets[0];
  }

  lemma SizeUpdateRoundTrip(size: u64, suffix: seq<byte>)
    ensures var octets := PrintSizeUpdate(size);
            ParseRepresentation(octets + suffix) == Ok(SizeUpdate(IntegerView(octets, 5, size, 0x20)))
  {
    hide KindOf;
    hide ParseInteger;
    FirstOctet(size, 5, 0x20);
    var octets := PrintSizeUpdate(size);
    FirstKind(octets[0]);
    RoundTrip(size, 5, 0x20, suffix);
    assert (octets + suffix)[0] == octets[0];
  }

  function PrintedName(name: Option<Text>): Option<StringView>
    requires name.Some? ==> |name.value.payload| < U64_LIMIT
  {
    match name
    case None => None
    case Some(text) => Some(PrintedString(text.payload, text.huffman))
  }

  /** A printed literal parses to its mode, its name index or name, and its value. */
  lemma LiteralRoundTrip(mode: LiteralMode, nameIndex: u64, name: Option<Text>, text: Text, suffix: seq<byte>)
    requires name.Some? <==> nameIndex == 0
    requires |PrintLiteral(mode, nameIndex, name, text)| <= USIZE_MAX
    ensures var octets := PrintLiteral(mode, nameIndex, name, text);
            var index := IntegerView(EncodeInteger(nameIndex, PrefixBits(mode), Flags(mode)),
                                     PrefixBits(mode), nameIndex, Flags(mode));
            && (name.Some? ==> |name.value.payload| < U64_LIMIT) && |text.payload| < U64_LIMIT
            && ParseRepresentation(octets + suffix)
               == Ok(Literal(octets, mode, index, PrintedName(name), PrintedString(text.payload, text.huffman)))
  {
    hide ParseInteger;
    hide EncodeInteger;
    hide ParseString;
    hide KindOf;
    var index := EncodeInteger(nameIndex, PrefixBits(mode), Flags(mode));
    var names, texts := PrintName(name), EncodeString(text.payload, text.huffman);
    var octets := PrintLiteral(mode, nameIndex, name, text);
    var bytes := octets + suffix;
    LiteralDispatch(mode, nameIndex, bytes);
    LiteralPieces(index, names, texts, suffix);
    RoundTrip(nameIndex, PrefixBits(mode), Flags(mode), names + (texts + suffix));
    if name.Some? {
      StringRoundTrip(name.value.payload, name.value.huffman, texts + suffix);
    }
    StringRoundTrip(text.payload, text.huffman, suffix);
  }

  lemma LiteralPieces(index: seq<byte>, names: seq<byte>, texts: seq<byte>, suffix: seq<byte>)
    ensures var octets := index + names + texts;
            && octets + suffix == index + (names + (texts + suffix))
            && (octets + suffix)[|index|..] == names + (texts + suffix)
            && (names + (texts + suffix))[|names|..] == texts + suffix
            && (octets + suffix)[..|octets|] == octets
  {
    var octets := index + names + texts;
    assert octets + suffix == index + (names + (texts + suffix));
  }

  lemma LiteralDispatch(mode: LiteralMode, nameIndex: u64, bytes: seq<byte>)
    requires var index := EncodeInteger(nameIndex, PrefixBits(mode), Flags(mode)); bytes != [] && bytes[0] == index[0]
    ensures ParseRepresentation(bytes) == ParseLiteral(bytes, mode)
  {
    hide KindOf;
    hide ParseLiteral;
    FirstOctet(nameIndex, PrefixBits(mode), Flags(mode));
    FirstKind(bytes[0]);
  }

  // ---- On the wire ----

  lemma IntegerOnWire(value: nat, prefixBits: int, highBits: byte)
    requires ValidPrefix(prefixBits) && HighBits(highBits, prefixBits)
    ensures value < Pow2(prefixBits) - 1 ==> EncodeInteger(value, prefixBits, highBits) == [highBits + value]
    ensures value == Pow2(prefixBits) - 1 ==> EncodeInteger(value, prefixBits, highBits) == [highBits + value, 0]
  {
    MaskMeaning(prefixBits);
    assert EncodeTail(0) == [0];
  }

  lemma SmallPowers()
    ensures Pow2(4) == 16 && Pow2(5) == 32 && Pow2(6) == 64 && Pow2(7) == 128
  {
    assert Pow2(4) == 2 * Pow2(3) == 4 * Pow2(2);
    assert Pow2(7) == 2 * Pow2(6) == 4 * Pow2(5) == 8 * Pow2(4);
  }

  /** Up to 126 an index takes the seven bits behind a one, and up to 30 a size the five bits behind 001. */
  lemma IndexedOnWire(index: nat, size: nat)
    ensures index < 127 ==> PrintIndexed(index) == [0x80 + index]
    ensures PrintIndexed(127) == [0xFF, 0]
    ensures size < 31 ==> PrintSizeUpdate(size) == [0x20 + size]
    ensures PrintSizeUpdate(31) == [0x3F, 0]
  {
    hide EncodeInteger;
    SmallPowers();
    IntegerOnWire(index, 7, 0x80);
    IntegerOnWire(127, 7, 0x80);
    IntegerOnWire(size, 5, 0x20);
    IntegerOnWire(31, 5, 0x20);
  }

  /** Up to 126 the length of a string takes the seven bits behind the Huffman bit. */
  lemma StringOnWire(payload: seq<byte>)
    ensures |payload| < 127 ==> EncodeString(payload, false) == [|payload|] + payload
    ensures |payload| < 127 ==> EncodeString(payload, true) == [0x80 + |payload|] + payload
    ensures |payload| == 127 ==> EncodeString(payload, false) == [0x7F, 0] + payload
    ensures |payload| == 127 ==> EncodeString(payload, true) == [0xFF, 0] + payload
  {
    hide EncodeInteger;
    SmallPowers();
    IntegerOnWire(|payload|, 7, 0);
    IntegerOnWire(|payload|, 7, 0x80);
  }

  /** A name index takes six bits behind 01 if the literal is indexed, and else four behind 0000, or 0001 for never. */
  lemma LiteralOnWire(index: nat, name: Option<Text>, text: Text)
    ensures var rest := PrintName(name) + EncodeString(text.payload, text.huffman);
            && (index < 63 ==> PrintLiteral(IncrementalIndexing, index, name, text) == [0x40 + index] + rest)
            && PrintLiteral(IncrementalIndexing, 63, name, text) == [0x7F, 0] + rest
            && (index < 15 ==> PrintLiteral(WithoutIndexing, index, name, text) == [index] + rest)
            && PrintLiteral(WithoutIndexing, 15, name, text) == [0x0F, 0] + rest
            && (index < 15 ==> PrintLiteral(NeverIndexed, index, name, text) == [0x10 + index] + rest)
            && PrintLiteral(NeverIndexed, 15, name, text) == [0x1F, 0] + rest
  {
    hide EncodeInteger;
    hide EncodeString;
    hide PrintName;
    SmallPowers();
    var names, texts := PrintName(name), EncodeString(text.payload, text.huffman);
    LiteralHead(IncrementalIndexing, index, names, texts);
    LiteralHead(WithoutIndexing, index, names, texts);
    LiteralHead(NeverIndexed, index, names, texts);
    LiteralHead(IncrementalIndexing, 63, names, texts);
    LiteralHead(WithoutIndexing, 15, names, texts);
    LiteralHead(NeverIndexed, 15, names, texts);
  }

  lemma LiteralHead(mode: LiteralMode, index: nat, names: seq<byte>, texts: seq<byte>)
    ensures var octets := EncodeInteger(index, PrefixBits(mode), Flags(mode)) + names + texts;
            && (index < Pow2(PrefixBits(mode)) - 1 ==> octets == [Flags(mode) + index] + (names + texts))
            && (index == Pow2(PrefixBits(mode)) - 1 ==> octets == [Flags(mode) + index, 0] + (names + texts))
  {
    IntegerOnWire(index, PrefixBits(mode), Flags(mode));
    hide EncodeInteger;
    var head := EncodeInteger(index, PrefixBits(mode), Flags(mode));
    assert head + names + texts == head + (names + texts);
  }

  /** The top bit of a string says whether it is Huffman coded. */
  lemma HuffmanBit(bytes: seq<byte>)
    requires ParseString(bytes).Ok?
    ensures ParseString(bytes).value.IsHuffman() <==> bytes[0] >= 0x80
  {
  }
}
