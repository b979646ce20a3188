/**
 * One HPACK direction as two step functions over the same state: what the encoder emits for
 * a command, and what the decoder makes of the octets it is given. `HpackEncoder` and
 * `HpackDecoder` are proved to compute these steps.
 */
module HpackSession {
  import opened Machine
  import opened HpackFields
  import opened HpackInteger
  import opened HpackRepresentation
  import opened HpackContext
  import opened HpackTable
  import HuffmanCode
  import HuffmanCodec

  const STATIC_LEN := 61

  /** The constants of RFC 7541: the static table and the Huffman code. */
  datatype Standard = Standard(fields: seq<Field>, codes: HuffmanCode.Codes) {
    ghost predicate Valid() {
      |fields| == STATIC_LEN && HuffmanCode.Sound(codes)
    }
  }

  /** One header block under way: its direction's state, and whether a field has passed. */
  datatype Block = Block(session: Session, started: bool)

  /** The entry at a combined index: static entries first, then the newest dynamic ones. */
  function Resolve(std: Standard, entries: seq<Field>, index: nat): (r: Option<Field>)
    requires |std.fields| == STATIC_LEN
  {
    if index == 0 then None
    else if index <= STATIC_LEN then Some(std.fields[index - 1])
    else if index - STATIC_LEN <= |entries| then Some(entries[index - STATIC_LEN - 1])
    else None
  }

  /** The same, looked up in the packed table. */
  function Lookup(std: Standard, table: HpackDynamicTable, index: nat): (r: Option<Field>)
    requires |std.fields| == STATIC_LEN && table.Valid()
    reads table, table.storage, table.entries
    ensures r == Resolve(std, table.Contents(), index)
  {
    if index == 0 then None
    else if index <= STATIC_LEN then Some(std.fields[index - 1])
    else table.Get(index - STATIC_LEN)
  }

  // ---- Encoding ----

  datatype LiteralNameArgument = IndexedName(index: u64, decoded: seq<byte>) | LiteralNameText(decoded: seq<byte>)

  datatype Command =
    | EncodeIndexed(index: u64)
    | EncodeLiteral(mode: LiteralMode, name: LiteralNameArgument, text: seq<byte>,
                    huffmanName: bool, huffmanValue: bool)
    | EncodeSizeUpdate(limit: usize)

  datatype EncodeError =
    | AllowedMaximumExceedsCapacity(limit: nat, capacity: nat)
    | SizeUpdateRequired
    | SizeUpdateMismatch(expected: nat, requested: nat)
    | SizeUpdateAfterField
    | SizeUpdateExceedsAllowed(requested: nat, permitted: nat)
    | UnavailableIndex(index: nat)
    | IndexedLiteralNameMismatch(index: nat)
    | HuffmanNameForIndexedName
    | HuffmanName(error: HuffmanCodec.EncodeError)
    | HuffmanValue(error: HuffmanCodec.EncodeError)
    | RepresentationLengthOverflow
    | DynamicTableEntrySize
    | BufferTooShort(required: nat, available: nat)

  datatype Emitted = Emitted(block: Block, octets: seq<byte>)

  /** The payload of a string: Huffman coded or as it is. */
  function Payload(std: Standard, decoded: seq<byte>, huffman: bool): Result<seq<byte>, HuffmanCodec.EncodeError>
    requires |std.codes| == 257
  {
    if huffman then
      match HuffmanCodec.RequiredEncodedLen(std.codes, decoded)
      case Err(e) => Err(e)
      case Ok(_) => Ok(HuffmanCode.Encode(std.codes, decoded))
    else Ok(decoded)
  }

  /** The name index, and the decoded name, that a literal refers to. */
  function LiteralIndex(std: Standard, entries: seq<Field>, name: LiteralNameArgument, huffmanName: bool)
    : Result<nat, EncodeError>
    requires |std.fields| == STATIC_LEN
  {
    match name
    case LiteralNameText(_) => Ok(0)
    case IndexedName(index, decoded) =>
      if huffmanName then Err(HuffmanNameForIndexedName)
      else
        match Resolve(std, entries, index)
        case None => Err(UnavailableIndex(index))
        case Some(f) => if f.name != decoded then Err(IndexedLiteralNameMismatch(index)) else Ok(index)
  }

  /** The name to emit, if the literal carries one. */
  function NameText(std: Standard, name: LiteralNameArgument, huffmanName: bool): Result<Option<Text>, EncodeError>
    requires |std.codes| == 257
  {
    match name
    case IndexedName(_, _) => Ok(None)
    case LiteralNameText(decoded) =>
      match Payload(std, decoded, huffmanName)
      case Err(e) => Err(HuffmanName(e))
      case Ok(payload) => Ok(Some(Text(payload, huffmanName)))
  }

  function ValueText(std: Standard, text: seq<byte>, huffmanValue: bool): Result<Text, EncodeError>
    requires |std.codes| == 257
  {
    match Payload(std, text, huffmanValue)
    case Err(e) => Err(HuffmanValue(e))
    case Ok(payload) => Ok(Text(payload, huffmanValue))
  }

  /** The literal representation, before any room is considered. */
  function LiteralOctets(std: Standard, entries: seq<Field>, c: Command): Result<seq<byte>, EncodeError>
    requires |std.fields| == STATIC_LEN && |std.codes| == 257 && c.EncodeLiteral?
  {
    match LiteralIndex(std, entries, c.name, c.huffmanName)
    case Err(e) => Err(e)
    case Ok(index) =>
      if c.mode == IncrementalIndexing && EntrySize(Field(c.name.decoded, c.text)) > USIZE_MAX
      then Err(DynamicTableEntrySize)
      else
        match NameText(std, c.name, c.huffmanName)
        case Err(e) => Err(e)
        case Ok(name) =>
          match ValueText(std, c.text, c.huffmanValue)
          case Err(e) => Err(e)
          case Ok(text) =>
            var octets := PrintLiteral(c.mode, index, name, text);
            if |octets| > USIZE_MAX then Err(RepresentationLengthOverflow) else Ok(octets)
  }

  function Emit(octets: seq<byte>, room: nat, after: Block): Result<Emitted, EncodeError> {
    if room < |octets| then Err(BufferTooShort(|octets|, room)) else Ok(Emitted(after, octets))
  }

  /** One call of the block encoder with `room` octets of destination. */
  function EncodeStep(std: Standard, capacity: nat, b: Block, c: Command, room: nat): Result<Emitted, EncodeError>
    requires |std.fields| == STATIC_LEN && |std.codes| == 257
  {
    match c
    case EncodeIndexed(index) =>
      if b.session.pending.Next().Some? then Err(SizeUpdateRequired)
      else if Resolve(std, b.session.fields, index).None? then Err(UnavailableIndex(index))
      else Emit(PrintIndexed(index), room, b.(started := true))
    case EncodeLiteral(mode, name, text, _, _) =>
      if b.session.pending.Next().Some? then Err(SizeUpdateRequired)
      else
        (match LiteralOctets(std, b.session.fields, c)
         case Err(e) => Err(e)
         case Ok(octets) => Emit(octets, room, Block(AfterLiteral(b.session, mode, Field(name.decoded, text)), true)))
    case EncodeSizeUpdate(limit) =>
      var permitted := Min(b.session.allowed, capacity);
      if b.started then Err(SizeUpdateAfterField)
      else if b.session.pending.Next().Some? && limit != b.session.pending.Next().value then
        Err(SizeUpdateMismatch(b.session.pending.Next().value, limit))
      else if limit > permitted then Err(SizeUpdateExceedsAllowed(limit, permitted))
      else Emit(PrintSizeUpdate(limit), room, b.(session := b.session.Update(limit)))
  }

  /** Only incremental indexing touches the table. */
  function AfterLiteral(s: Session, mode: LiteralMode, f: Field): Session {
    if mode == IncrementalIndexing then s.Add(f) else s
  }

  // ---- Decoding ----

  datatype DecodedMode = ByIndex | ByLiteral(mode: LiteralMode)

  datatype Step = FieldStep(f: Field, mode: DecodedMode) | SizeUpdateStep(limit: nat) | Complete

  datatype DecodeError =
    | LimitExceedsCapacity(limit: nat, capacity: nat)
    | BadRepresentation(parse: RepresentationError)
    | DecodedUnavailableIndex(index: nat)
    | DecodedSizeUpdateRequired
    | DecodedSizeUpdateMismatch(expected: nat, requested: nat)
    | DecodedSizeUpdateAfterField
    | DecodedSizeUpdateExceedsAllowed(requested: nat, permitted: nat)
    | SizeUpdateFailed(requested: nat, capacity: nat)
    | BadHuffmanName(error: HuffmanCode.DecodeError)
    | BadHuffmanValue(error: HuffmanCode.DecodeError)
    | DecodedLengthOverflow
    | EntrySizeOverflow
    | OutputTooShort(required: nat, available: nat)

  datatype Decoded = Decoded(block: Block, remaining: seq<byte>, step: Step)

  function TextOf(std: Standard, view: StringView): Result<seq<byte>, HuffmanCode.DecodeError>
    requires |std.codes| == 257 && |view.length.bytes| <= |view.bytes|
  {
    if view.IsHuffman() then HuffmanCode.Decode(std.codes, view.EncodedBytes()) else Ok(view.EncodedBytes())
  }

  function LiteralNameOf(std: Standard, entries: seq<Field>, nameIndex: nat,
                         name: Option<StringView>): Result<seq<byte>, DecodeError>
    requires |std.fields| == STATIC_LEN && |std.codes| == 257
    requires name.Some? ==> |name.value.length.bytes| <= |name.value.bytes|
  {
    match name
    case Some(view) =>
      (match TextOf(std, view)
       case Err(e) => Err(BadHuffmanName(e))
       case Ok(text) => Ok(text))
    case None =>
      (match Resolve(std, entries, nameIndex)
       case None => Err(DecodedUnavailableIndex(nameIndex))
       case Some(f) => Ok(f.name))
  }

  /** The field of a literal representation. */
  function LiteralFieldOf(std: Standard, entries: seq<Field>, r: Representation): Result<Field, DecodeError>
    requires |std.fields| == STATIC_LEN && |std.codes| == 257 && r.Literal?
    requires r.name.Some? ==> |r.name.value.length.bytes| <= |r.name.value.bytes|
    requires |r.text.length.bytes| <= |r.text.bytes|
  {
    match LiteralNameOf(std, entries, r.nameIndex.value, r.name)
    case Err(e) => Err(e)
    case Ok(name) =>
      match TextOf(std, r.text)
      case Err(e) => Err(BadHuffmanValue(e))
      case Ok(text) => Ok(Field(name, text))
  }

  function CheckRoom(f: Field, room: nat): Result<(), DecodeError> {
    if |f.name| + |f.value| > USIZE_MAX then Err(DecodedLengthOverflow)
    else if room < |f.name| + |f.value| then Err(OutputTooShort(|f.name| + |f.value|, room))
    else Ok(())
  }

  lemma ParsedLiteralSizes(bytes: seq<byte>)
    requires ParseRepresentation(bytes).Ok? && ParseRepresentation(bytes).value.Literal?
    ensures var r := ParseRepresentation(bytes).value;
            && (r.name.Some? ==> |r.name.value.length.bytes| <= |r.name.value.bytes| <= |bytes|)
            && |r.text.length.bytes| <= |r.text.bytes| <= |bytes|
  {
    hide ParseInteger;
    hide KindOf;
  }

  function DecodeLiteral(std: Standard, b: Block, remaining: seq<byte>, r: Representation, room: nat)
    : Result<Decoded, DecodeError>
    requires |std.fields| == STATIC_LEN && |std.codes| == 257 && ParseRepresentation(remaining) == Ok(r) && r.Literal?
  {
    ParsedLiteralSizes(remaining);
    ParsedIsPrefix(remaining);
    match LiteralFieldOf(std, b.session.fields, r)
    case Err(e) => Err(e)
    case Ok(f) =>
      match CheckRoom(f, room)
      case Err(e) => Err(e)
      case Ok(_) =>
        if r.mode == IncrementalIndexing && EntrySize(f) > USIZE_MAX then Err(DecodeError.EntrySizeOverflow)
        else Ok(Decoded(Block(AfterLiteral(b.session, r.mode, f), true), remaining[|r.AsBytes()|..],
                        FieldStep(f, ByLiteral(r.mode))))
  }

  function DecodeIndexed(std: Standard, b: Block, remaining: seq<byte>, r: Representation, room: nat)
    : Result<Decoded, DecodeError>
    requires |std.fields| == STATIC_LEN && ParseRepresentation(remaining) == Ok(r) && r.Indexed?
  {
    ParsedIsPrefix(remaining);
    match Resolve(std, b.session.fields, r.index.value)
    case None => Err(DecodedUnavailableIndex(r.index.value))
    case Some(f) =>
      match CheckRoom(f, room)
      case Err(e) => Err(e)
      case Ok(_) => Ok(Decoded(b.(started := true), remaining[|r.AsBytes()|..], FieldStep(f, ByIndex)))
  }

  function DecodeSizeUpdate(capacity: nat, b: Block, remaining: seq<byte>, r: Representation)
    : Result<Decoded, DecodeError>
    requires ParseRepresentation(remaining) == Ok(r) && r.SizeUpdate?
  {
    ParsedIsPrefix(remaining);
    var limit := r.size.value;
    if b.started then Err(DecodedSizeUpdateAfterField)
    else if b.session.pending.Next().Some? && limit != b.session.pending.Next().value then
      Err(DecodedSizeUpdateMismatch(b.session.pending.Next().value, limit))
    else if limit > b.session.allowed then Err(DecodedSizeUpdateExceedsAllowed(limit, b.session.allowed))
    else if limit > capacity then Err(SizeUpdateFailed(limit, capacity))
    else Ok(Decoded(b.(session := b.session.Update(limit)), remaining[|r.AsBytes()|..], SizeUpdateStep(limit)))
  }

  /** One call of the block decoder with `room` octets of output. */
  function DecodeStep(std: Standard, capacity: nat, b: Block, remaining: seq<byte>, room: nat)
    : Result<Decoded, DecodeError>
    requires |std.fields| == STATIC_LEN && |std.codes| == 257
  {
    if remaining == [] then
      if b.session.pending.Next().Some? then Err(DecodedSizeUpdateRequired) else Ok(Decoded(b, [], Complete))
    else
      match ParseRepresentation(remaining)
      case Err(e) => Err(BadRepresentation(e))
      case Ok(r) =>
        if r.SizeUpdate? then DecodeSizeUpdate(capacity, b, remaining, r)
        else if b.session.pending.Next().Some? then Err(DecodedSizeUpdateRequired)
        else if r.Indexed? then DecodeIndexed(std, b, remaining, r, room)
        else DecodeLiteral(std, b, remaining, r, room)
  }

  // ---- What every step keeps ----

  lemma EncodeKeepsValid(std: Standard, capacity: nat, b: Block, c: Command, room: nat)
    requires std.Valid() && b.session.Valid(capacity) && EncodeStep(std, capacity, b, c, room).Ok?
    ensures EncodeStep(std, capacity, b, c, room).value.block.session.Valid(capacity)
    ensures EncodeStep(std, capacity, b, c, room).value.block.session.allowed == b.session.allowed
  {
    hide LiteralOctets;
    hide EncodeInteger;
    hide Resolve;
  }

  /** Whatever the input, the decoder stays consistent; and its table never refuses an update it let through. */
  lemma DecodeKeepsValid(std: Standard, capacity: nat, b: Block, remaining: seq<byte>, room: nat)
    requires std.Valid() && b.session.Valid(capacity)
    ensures var r := DecodeStep(std, capacity, b, remaining, room);
            && (r.Ok? ==> r.value.block.session.Valid(capacity) && r.value.block.session.allowed == b.session.allowed)
            && (r.Err? ==> !r.error.SizeUpdateFailed?)
  {
    hide ParseRepresentation;
    hide TextOf;
    hide Resolve;
  }

  /** Every step but the last makes progress, so decoding a block ends. */
  lemma DecodeConsumes(std: Standard, capacity: nat, b: Block, remaining: seq<byte>, room: nat)
    requires |std.fields| == STATIC_LEN && |std.codes| == 257
    requires DecodeStep(std, capacity, b, remaining, room).Ok?
    ensures var d := DecodeStep(std, capacity, b, remaining, room).value;
            if remaining == [] then d.step == Complete && d.block == b
            else d.step != Complete && |d.remaining| < |remaining|
  {
    hide ParseRepresentation;
    hide LiteralFieldOf;
    hide Resolve;
    if remaining != [] {
      ParsedIsPrefix(remaining);
    }
  }

  // ---- What every step means ----

  /** A size update leaves the longest run of newest entries that the new maximum allows, and nothing else changes. */
  predicate Resized(before: Session, after: Session, limit: nat) {
    && after.maximum == limit && after.allowed == before.allowed
    && after.fields <= before.fields && TotalSize(after.fields) <= limit
    && forall k :: |after.fields| < k <= |before.fields| ==> TotalSize(before.fields[..k]) > limit
  }

  /** A literal field touches the table only by incremental indexing, which makes it the newest entry. */
  predicate Committed(before: Session, after: Session, mode: LiteralMode, f: Field) {
    if mode != IncrementalIndexing then after == before
    else after == before.(fields := after.fields) && NewestInserted(before.fields, after.fields, before.maximum, f)
  }

  lemma UpdateResizes(s: Session, limit: nat)
    ensures Resized(s, s.Update(limit), limit)
  {
    var kept := Evict(s.fields, limit);
    forall k | |kept| < k <= |s.fields|
      ensures TotalSize(s.fields[..k]) > limit
    {
      if TotalSize(s.fields[..k]) <= limit {
        EvictLongest(s.fields, limit, k);
      }
    }
  }

  lemma LiteralCommits(s: Session, mode: LiteralMode, f: Field)
    ensures Committed(s, AfterLiteral(s, mode, f), mode, f)
  {
    InsertExact(s.fields, Insert(s.fields, s.maximum, f), s.maximum, f);
  }

  /** The entry at this index has this name. */
  predicate HasName(std: Standard, entries: seq<Field>, index: nat, name: seq<byte>)
    requires |std.fields| == STATIC_LEN
  {
    Resolve(std, entries, index).Some? && Resolve(std, entries, index).value.name == name
  }

  /** What an accepted command asked for, and what it does to the session and to the block. */
  lemma EncodedMeaning(std: Standard, capacity: nat, b: Block, c: Command, room: nat)
    requires |std.fields| == STATIC_LEN && |std.codes| == 257 && EncodeStep(std, capacity, b, c, room).Ok?
    ensures var Emitted(after, octets) := EncodeStep(std, capacity, b, c, room).value;
            && |octets| <= room
            && match c
               case EncodeIndexed(index) =>
                 && b.session.pending == NOTHING_PENDING && Resolve(std, b.session.fields, index).Some?
                 && after == Block(b.session, true)
               case EncodeLiteral(mode, name, text, huffmanName, _) =>
                 && b.session.pending == NOTHING_PENDING && after.started
                 && (name.IndexedName? ==> !huffmanName && HasName(std, b.session.fields, name.index, name.decoded))
                 && (mode == IncrementalIndexing ==> |name.decoded| + |text| + 32 <= USIZE_MAX)
                 && Committed(b.session, after.session, mode, Field(name.decoded, text))
               case EncodeSizeUpdate(limit) =>
                 && !b.started && limit <= b.session.allowed && limit <= capacity && !after.started
                 && (b.session.pending.Next().Some? ==> limit == b.session.pending.Next().value)
                 && Resized(b.session, after.session, limit) && after.session.pending == b.session.pending.Advance()
  {
    hide PrintLiteral;
    hide Payload;
    hide Committed;
    hide Resized;
    hide Resolve;
    match c
    case EncodeIndexed(_) =>
    case EncodeLiteral(mode, name, text, _, _) => LiteralCommits(b.session, mode, Field(name.decoded, text));
    case EncodeSizeUpdate(limit) => UpdateResizes(b.session, limit);
  }

  /** Every refusal of a command names a fault that is there; a short buffer is the last of them. */
  lemma EncodeRefused(std: Standard, capacity: nat, b: Block, c: Command, room: nat)
    requires |std.fields| == STATIC_LEN && |std.codes| == 257 && EncodeStep(std, capacity, b, c, room).Err?
    ensures var s := b.session;
            match EncodeStep(std, capacity, b, c, room).error
            case AllowedMaximumExceedsCapacity(_, _) => false
            case SizeUpdateRequired => !c.EncodeSizeUpdate? && s.pending != NOTHING_PENDING
            case SizeUpdateMismatch(expected, requested) =>
              c == EncodeSizeUpdate(requested) && s.pending.Next() == Some(expected) && expected != requested
            case SizeUpdateAfterField => c.EncodeSizeUpdate? && b.started
            case SizeUpdateExceedsAllowed(requested, permitted) =>
              && c == EncodeSizeUpdate(requested) && requested > permitted
              && (permitted == s.allowed <= capacity || permitted == capacity <= s.allowed)
            case UnavailableIndex(index) => Names(c, index) && Resolve(std, s.fields, index) == None
            case IndexedLiteralNameMismatch(index) =>
              && c.EncodeLiteral? && Names(c, index)
              && Resolve(std, s.fields, index).Some? && Resolve(std, s.fields, index).value.name != c.name.decoded
            case HuffmanNameForIndexedName => c.EncodeLiteral? && c.name.IndexedName? && c.huffmanName
            case HuffmanName(e) =>
              && c.EncodeLiteral? && c.name.LiteralNameText? && c.huffmanName
              && HuffmanCodec.RequiredEncodedLen(std.codes, c.name.decoded) == Err(e)
            case HuffmanValue(e) =>
              c.EncodeLiteral? && c.huffmanValue && HuffmanCodec.RequiredEncodedLen(std.codes, c.text) == Err(e)
            case RepresentationLengthOverflow =>
              && c.EncodeLiteral?
              && exists index: nat, name: Option<Text>, text: Text ::
                   && ValueText(std, c.text, c.huffmanValue) == Ok(text) && name.Some? == c.name.LiteralNameText?
                   && |PrintLiteral(c.mode, index, name, text)| > USIZE_MAX
            case DynamicTableEntrySize =>
              && c.EncodeLiteral? && c.mode == IncrementalIndexing
              && |c.name.decoded| + |c.text| + 32 > USIZE_MAX
            case BufferTooShort(required, available) =>
              && available == room < required && EncodeStep(std, capacity, b, c, required).Ok?
              && (c.EncodeLiteral? ==> required <= USIZE_MAX)
  {
    hide Resolve;
    hide PrintLiteral;
    hide EncodeInteger;
  }

  /** The index that a command refers to. */
  predicate Names(c: Command, index: nat) {
    match c
    case EncodeIndexed(i) => i == index
    case EncodeLiteral(_, name, _, _, _) => name.IndexedName? && name.index == index
    case EncodeSizeUpdate(_) => false
  }

  /** What a decoded step was read from, and what it does to the session, to the block and to the input. */
  lemma DecodedMeaning(std: Standard, capacity: nat, b: Block, remaining: seq<byte>, room: nat)
    requires |std.fields| == STATIC_LEN && |std.codes| == 257 && DecodeStep(std, capacity, b, remaining, room).Ok?
    ensures var Decoded(after, rest, step) := DecodeStep(std, capacity, b, remaining, room).value;
            if step.Complete? then
              remaining == rest == [] && after == b && b.session.pending == NOTHING_PENDING
            else
              && ParseRepresentation(remaining).Ok?
              && var r := ParseRepresentation(remaining).value;
                 && remaining == r.AsBytes() + rest
                 && (step.FieldStep? ==>
                       && b.session.pending == NOTHING_PENDING && |step.f.name| + |step.f.value| <= Min(room, USIZE_MAX)
                       && after.started && FieldOf(std, b.session.fields, r, step))
                 && (step.FieldStep? && step.mode.ByIndex? ==> after.session == b.session)
                 && (step.FieldStep? && step.mode.ByLiteral? ==>
                       && (step.mode.mode == IncrementalIndexing ==>
                             |step.f.name| + |step.f.value| + 32 <= USIZE_MAX)
                       && Committed(b.session, after.session, step.mode.mode, step.f))
                 && (step.SizeUpdateStep? ==>
                       && r.SizeUpdate? && r.size.value == step.limit <= b.session.allowed && step.limit <= capacity
                       && !b.started && !after.started
                       && (b.session.pending.Next().Some? ==> step.limit == b.session.pending.Next().value)
                       && Resized(b.session, after.session, step.limit)
                       && after.session.pending == b.session.pending.Advance())
  {
    hide ParseRepresentation;
    hide Resolve;
    hide Committed;
    hide Resized;
    if remaining != [] {
      ParsedIsPrefix(remaining);
      if ParseRepresentation(remaining).value.Literal? {
        ParsedLiteralSizes(remaining);
      }
      var step := DecodeStep(std, capacity, b, remaining, room).value.step;
      if step.SizeUpdateStep? {
        UpdateResizes(b.session, step.limit);
      } else if step.mode.ByLiteral? {
        LiteralCommits(b.session, step.mode.mode, step.f);
      }
    }
  }

  /** The field that a representation stands for: an entry, or a name and a value of its own. */
  predicate FieldOf(std: Standard, entries: seq<Field>, r: Representation, step: Step)
    requires |std.fields| == STATIC_LEN && |std.codes| == 257 && step.FieldStep?
  {
    match r
    case Indexed(index) => step.mode == ByIndex && Resolve(std, entries, index.value) == Some(step.f)
    case Literal(_, mode, nameIndex, name, text) =>
      && step.mode == ByLiteral(mode) && Reads(std, text, step.f.value)
      && if name.Some? then Reads(std, name.value, step.f.name)
         else Resolve(std, entries, nameIndex.value).Some?
              && Resolve(std, entries, nameIndex.value).value.name == step.f.name
    case SizeUpdate(_) => false
  }

  /** A string literal carries this text, as it is or Huffman coded. */
  predicate Reads(std: Standard, view: StringView, text: seq<byte>)
    requires |std.codes| == 257
  {
    && |view.length.bytes| <= |view.bytes|
    && if view.IsHuffman() then HuffmanCode.Decode(std.codes, view.EncodedBytes()) == Ok(text)
       else view.EncodedBytes() == text
  }

  /** Every refusal of a step names a fault that is there; a short output is the last but one of them. */
  lemma DecodeRefused(std: Standard, capacity: nat, b: Block, remaining: seq<byte>, room: nat)
    requires |std.fields| == STATIC_LEN && |std.codes| == 257 && DecodeStep(std, capacity, b, remaining, room).Err?
    ensures var s, parsed := b.session, ParseRepresentation(remaining);
            match DecodeStep(std, capacity, b, remaining, room).error
            case LimitExceedsCapacity(_, _) => false
            case BadRepresentation(e) => remaining != [] && parsed == Err(e)
            case DecodedUnavailableIndex(index) =>
              parsed.Ok? && Uses(parsed.value, index) && Resolve(std, s.fields, index) == None
            case DecodedSizeUpdateRequired =>
              s.pending != NOTHING_PENDING && (remaining == [] || (parsed.Ok? && !parsed.value.SizeUpdate?))
            case DecodedSizeUpdateMismatch(expected, requested) =>
              && parsed.Ok? && Updates(parsed.value, requested)
              && s.pending.Next() == Some(expected) && expected != requested
            case DecodedSizeUpdateAfterField => parsed.Ok? && parsed.value.SizeUpdate? && b.started
            case DecodedSizeUpdateExceedsAllowed(requested, permitted) =>
              parsed.Ok? && Updates(parsed.value, requested) && requested > permitted == s.allowed
            case SizeUpdateFailed(requested, limit) =>
              parsed.Ok? && Updates(parsed.value, requested) && requested > limit == capacity
            case BadHuffmanName(e) =>
              && parsed.Ok? && parsed.value.Literal?
              && parsed.value.name.Some? && Garbled(std, parsed.value.name.value, e)
            case BadHuffmanValue(e) => parsed.Ok? && parsed.value.Literal? && Garbled(std, parsed.value.text, e)
            case DecodedLengthOverflow => parsed.Ok? && FieldTakes(std, s.fields, parsed.value, USIZE_MAX)
            case EntrySizeOverflow =>
              && parsed.Ok? && parsed.value.Literal? && parsed.value.mode == IncrementalIndexing
              && FieldTakes(std, s.fields, parsed.value, USIZE_MAX - 32)
            case OutputTooShort(required, available) =>
              && parsed.Ok? && available == room < required <= USIZE_MAX
              && FieldTakes(std, s.fields, parsed.value, required - 1)
  {
    hide ParseRepresentation;
    hide Resolve;
    if remaining != [] && ParseRepresentation(remaining).Ok? {
      var r := ParseRepresentation(remaining).value;
      if r.Literal? {
        ParsedLiteralSizes(remaining);
        if LiteralFieldOf(std, b.session.fields, r).Ok? {
          var f := LiteralFieldOf(std, b.session.fields, r).value;
          assert FieldOf(std, b.session.fields, r, FieldStep(f, ByLiteral(r.mode)));
        }
      } else if r.Indexed? && Resolve(std, b.session.fields, r.index.value).Some? {
        var f := Resolve(std, b.session.fields, r.index.value).value;
        assert FieldOf(std, b.session.fields, r, FieldStep(f, ByIndex));
      }
    }
  }

  /** The field that is represented takes more than this many octets. */
  ghost predicate FieldTakes(std: Standard, entries: seq<Field>, r: Representation, limit: nat)
    requires |std.fields| == STATIC_LEN && |std.codes| == 257
  {
    exists step: Step ::
      step.FieldStep? && FieldOf(std, entries, r, step) && |step.f.name| + |step.f.value| > limit
  }

  predicate Uses(r: Representation, index: nat) {
    match r
    case Indexed(i) => i.value == index
    case Literal(_, _, nameIndex, name, _) => name == None && nameIndex.value == index
    case SizeUpdate(_) => false
  }

  predicate Updates(r: Representation, limit: nat) { r.SizeUpdate? && r.size.value == limit }

  /** A string literal is Huffman coded, and its coding is refused. */
  predicate Garbled(std: Standard, view: StringView, e: HuffmanCode.DecodeError)
    requires |std.codes| == 257
  {
    && |view.length.bytes| <= |view.bytes| && view.IsHuffman()
    && HuffmanCode.Decode(std.codes, view.EncodedBytes()) == Err(e)
  }

  /** The room that is asked for is the room that is needed. */
  lemma OutputNeeded(std: Standard, capacity: nat, b: Block, remaining: seq<byte>, room: nat, required: nat)
    requires |std.fields| == STATIC_LEN && |std.codes| == 257
    requires DecodeStep(std, capacity, b, remaining, room) == Err(OutputTooShort(required, room))
    ensures var r := DecodeStep(std, capacity, b, remaining, required);
            if r.Ok? then r.value.step.FieldStep? && |r.value.step.f.name| + |r.value.step.f.value| == required
            else r.error.EntrySizeOverflow? && required + 32 > USIZE_MAX
  {
    hide ParseRepresentation;
    hide TextOf;
    hide Resolve;
  }

  /** Index 62 is the newest entry, an insertion moves every other entry up by one, and 1 to 61 are the static ones. */
  lemma ResolveMeaning(std: Standard, entries: seq<Field>, f: Field, index: nat)
    requires |std.fields| == STATIC_LEN
    ensures 1 <= index <= 61 ==> Resolve(std, entries, index) == Some(std.fields[index - 1])
    ensures index == 0 || index > 61 ==> Resolve(std, [], index) == None
    ensures Resolve(std, [f] + entries, 62) == Some(f)
    ensures index > 61 ==> Resolve(std, [f] + entries, index + 1) == Resolve(std, entries, index)
  {
  }
}
