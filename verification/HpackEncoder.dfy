/** The encoder's objects: a connection's context and one block under way, over a shared table. */
module HpackEncoder {
  import opened Machine
  import opened HpackFields
  import opened HpackTable
  import opened HpackInteger
  import opened HpackRepresentation
  import opened HpackContext
  import opened HpackSession
  import HuffmanCodec

  class HpackEncoderContext {
    const std: Standard
    const table: HpackDynamicTable
    const pending: PendingSizes
    var allowed: nat

    ghost function State(): Session
      requires table.Valid()
      reads this, pending, table, table.storage, table.entries
    {
      Session(table.Contents(), table.maximumSize, allowed, pending.Owed())
    }

    ghost predicate Valid()
      reads this, pending, table, table.storage, table.entries
    {
      std.Valid() && table.Valid() && State().Valid(table.capacity)
    }

    constructor (std: Standard, table: HpackDynamicTable, allowed: nat)
      requires std.Valid() && table.Valid() && allowed <= table.capacity
      ensures Valid() && this.std == std && this.table == table && fresh(pending)
      ensures State() == Session.Start(table.Contents(), table.maximumSize, allowed)
    {
      this.std := std;
      this.table := table;
      this.allowed := allowed;
      this.pending := new PendingSizes();
      new;
      pending.QueueInitial(table.maximumSize, allowed);
    }

    static method Create(std: Standard, table: HpackDynamicTable, allowed: nat)
      returns (r: Result<HpackEncoderContext, EncodeError>)
      requires std.Valid() && table.Valid()
      ensures allowed > table.capacity ==> r == Err(AllowedMaximumExceedsCapacity(allowed, table.capacity))
      ensures allowed <= table.capacity ==>
                && r.Ok? && fresh(r.value) && fresh(r.value.pending) && r.value.table == table && r.value.std == std
                && r.value.Valid() && r.value.State() == Session.Start(table.Contents(), table.maximumSize, allowed)
    {
      if allowed > table.capacity {
        return Err(AllowedMaximumExceedsCapacity(allowed, table.capacity));
      }
      var created := new HpackEncoderContext(std, table, allowed);
      return Ok(created);
    }

    method SetAllowedMaximumSize(limit: nat) returns (r: Result<(), EncodeError>)
      requires Valid()
      modifies this, pending
      ensures Valid()
      ensures r == if limit > table.capacity then Err(AllowedMaximumExceedsCapacity(limit, table.capacity)) else Ok(())
      ensures State() == if limit > table.capacity then old(State()) else old(State()).Change(limit)
    {
      if limit > table.capacity {
        return Err(AllowedMaximumExceedsCapacity(limit, table.capacity));
      }
      if limit != allowed {
        pending.RecordChange(limit);
        allowed := limit;
      }
      return Ok(());
    }

    method BeginBlock() returns (block: HpackBlockEncoder)
      requires Valid()
      ensures fresh(block) && block.Valid()
      ensures block.table == table && block.pending == pending && block.std == std
      ensures block.State() == Block(State(), false)
    {
      block := new HpackBlockEncoder(std, table, pending, allowed);
    }
  }

  /** The length of a string literal around `encodedLen` octets, when it is a machine integer. */
  method StringLen(encodedLen: nat) returns (r: Option<nat>)
    requires encodedLen < U64_LIMIT
    ensures r == if |EncodeInteger(encodedLen, 7, 0)| + encodedLen > USIZE_MAX then None
                 else Some(|EncodeInteger(encodedLen, 7, 0)| + encodedLen)
  {
    var lengthLen := EncodedLen(encodedLen, 7);
    if lengthLen + encodedLen > USIZE_MAX {
      return None;
    }
    return Some(lengthLen + encodedLen);
  }

  /** The octets a payload will take, or why it cannot be coded. */
  method PayloadLen(std: Standard, decoded: seq<byte>, huffman: bool) returns (r: Result<nat, HuffmanCodec.EncodeError>)
    requires std.Valid() && |decoded| <= ISIZE_MAX
    ensures r.Err? ==> Payload(std, decoded, huffman) == Err(r.error)
    ensures r.Ok? ==>
              Payload(std, decoded, huffman).Ok? && r.value == |Payload(std, decoded, huffman).value| < U64_LIMIT
  {
    if huffman {
      r := HuffmanCodec.EncodedLen(std.codes, decoded);
    } else {
      r := Ok(|decoded|);
    }
  }

  /** Writes one string literal at `at`, and nothing else; returns where it ends. */
  method WriteString(std: Standard, target: array<byte>, at: nat, decoded: seq<byte>, huffman: bool) returns (end: nat)
    requires std.Valid() && Payload(std, decoded, huffman).Ok?
    requires var payload := Payload(std, decoded, huffman).value;
             |payload| < U64_LIMIT && at + |EncodeString(payload, huffman)| <= target.Length
    modifies target
    ensures end == at + |EncodeString(Payload(std, decoded, huffman).value, huffman)|
    ensures target[..] == Splice(old(target[..]), at, EncodeString(Payload(std, decoded, huffman).value, huffman))
  {
    hide EncodeInteger;
    ghost var payload := Payload(std, decoded, huffman).value;
    var encodedLen;
    if huffman {
      var required := HuffmanCodec.EncodedLen(std.codes, decoded);
      encodedLen := required.value;
    } else {
      encodedLen := |decoded|;
    }
    var lengthLen := EncodedLen(encodedLen, 7);
    PrefixLength(encodedLen, 7, HuffmanFlag(huffman));
    SpliceAppend(target[..], at, EncodeInteger(encodedLen, 7, HuffmanFlag(huffman)), payload);
    WriteCanonical(target, at, 7, HuffmanFlag(huffman), encodedLen);
    if huffman {
      HuffmanCodec.EncodePrevalidated(std.codes, decoded, target, at + lengthLen);
    } else {
      CopyFromSlice(target, at + lengthLen, decoded);
    }
    end := at + lengthLen + encodedLen;
  }

  class HpackBlockEncoder {
    const std: Standard
    const table: HpackDynamicTable
    const pending: PendingSizes
    const allowed: nat
    var started: bool

    ghost function State(): Block
      requires table.Valid()
      reads this, pending, table, table.storage, table.entries
    {
      Block(Session(table.Contents(), table.maximumSize, allowed, pending.Owed()), started)
    }

    ghost predicate Valid()
      reads this, pending, table, table.storage, table.entries
    {
      std.Valid() && table.Valid() && State().session.Valid(table.capacity)
    }

    constructor (std: Standard, table: HpackDynamicTable, pending: PendingSizes, allowed: nat)
      requires std.Valid() && table.Valid()
      requires Session(table.Contents(), table.maximumSize, allowed, pending.Owed()).Valid(table.capacity)
      ensures Valid() && this.std == std && this.table == table && this.pending == pending
      ensures State() == Block(Session(table.Contents(), table.maximumSize, allowed, pending.Owed()), false)
    {
      this.std := std;
      this.table := table;
      this.pending := pending;
      this.allowed := allowed;
      this.started := false;
    }

    method EncodeIndexedField(destination: array<byte>, index: u64) returns (r: Result<nat, EncodeError>)
      requires Valid()
      requires destination != table.storage
      modifies this, destination
      ensures Valid()
      ensures Did(old(State()), EncodeIndexed(index), old(destination[..]), r, State(), destination[..])
    {
      hide EncodeInteger;
      hide LiteralOctets;
      if pending.Next().Some? {
        return Err(SizeUpdateRequired);
      }
      if Lookup(std, table, index).None? {
        return Err(UnavailableIndex(index));
      }
      var required := EncodedLen(index, 7);
      PrefixLength(index, 7, 0x80);
      if destination.Length < required {
        return Err(BufferTooShort(required, destination.Length));
      }
      WriteCanonical(destination, 0, 7, 0x80, index);
      started := true;
      return Ok(required);
    }

    /**
     * The call did what the encoding step says: on success the octets are at the front of the
     * destination and the state has moved; on failure nothing has changed.
     */
    ghost predicate Did(before: Block, c: Command, destination: seq<byte>, r: Result<nat, EncodeError>,
                        after: Block, written: seq<byte>)
      requires |std.fields| == STATIC_LEN && |std.codes| == 257
    {
      match EncodeStep(std, table.capacity, before, c, |destination|)
      case Err(e) => r == Err(e) && after == before && written == destination
      case Ok(emitted) =>
        && r == Ok(|emitted.octets|) && after == emitted.block
        && |emitted.octets| <= |destination| && written == Splice(destination, 0, emitted.octets)
    }

    method EncodeDynamicTableSizeUpdate(destination: array<byte>, limit: usize) returns (r: Result<nat, EncodeError>)
      requires Valid()
      requires destination != table.storage
      modifies this, destination, pending, table
      ensures Valid()
      ensures Did(old(State()), EncodeSizeUpdate(limit), old(destination[..]), r, State(), destination[..])
    {
      hide EncodeInteger;
      hide Evict;
      hide LiteralOctets;
      hide Resolve;
      if started {
        return Err(SizeUpdateAfterField);
      }
      var expected := pending.Next();
      if expected.Some? && limit != expected.value {
        return Err(SizeUpdateMismatch(expected.value, limit));
      }
      var permitted := Min(allowed, table.capacity);
      if limit > permitted {
        return Err(SizeUpdateExceedsAllowed(limit, permitted));
      }
      var required := EncodedLen(limit, 5);
      PrefixLength(limit, 5, 0x20);
      if destination.Length < required {
        return Err(BufferTooShort(required, destination.Length));
      }
      WriteCanonical(destination, 0, 5, 0x20, limit);
      table.SetMaximumSizePrevalidated(limit);
      if pending.Next().Some? {
        pending.Advance();
      }
      return Ok(required);
    }

    /** Whether the block is complete: no size update is owed. */
    method Finish() returns (r: Result<(), EncodeError>)
      requires Valid()
      ensures r == if State().session.pending.Next().Some? then Err(SizeUpdateRequired) else Ok(())
    {
      if pending.Next().Some? {
        return Err(SizeUpdateRequired);
      }
      return Ok(());
    }

    /** The checks that precede any output: the name index, or the error that stops the call. */
    method CheckLiteral(mode: LiteralMode, name: LiteralNameArgument, text: seq<byte>, huffmanName: bool)
      returns (r: Result<u64, EncodeError>)
      requires Valid()
      ensures var index := LiteralIndex(std, table.Contents(), name, huffmanName);
              var oversized := mode == IncrementalIndexing && EntrySize(Field(name.decoded, text)) > USIZE_MAX;
              if index.Err? then r == Err(index.error)
              else if oversized then r == Err(DynamicTableEntrySize)
              else r.Ok? && r.value == index.value
    {
      var index: u64 := 0;
      match name {
        case LiteralNameText(_) =>
        case IndexedName(at, decoded) =>
          if huffmanName {
            return Err(HuffmanNameForIndexedName);
          }
          var resolved := Lookup(std, table, at);
          if resolved.None? {
            return Err(UnavailableIndex(at));
          }
          if resolved.value.name != decoded {
            return Err(IndexedLiteralNameMismatch(at));
          }
          index := at;
      }
      if mode == IncrementalIndexing && EntrySize(Field(name.decoded, text)) > USIZE_MAX {
        return Err(DynamicTableEntrySize);
      }
      return Ok(index);
    }

    /** The length of the representation, found before anything is written. */
    method MeasureLiteral(mode: LiteralMode, index: u64, name: LiteralNameArgument, text: seq<byte>,
                          huffmanName: bool, huffmanValue: bool)
      returns (r: Result<nat, EncodeError>)
      requires Valid()
      requires |name.decoded| <= ISIZE_MAX && |text| <= ISIZE_MAX
      ensures var n := NameText(std, name, huffmanName);
              var v := ValueText(std, text, huffmanValue);
              if n.Err? then r == Err(n.error)
              else if v.Err? then r == Err(v.error)
              else
                && TextsFit(n.value, v.value)
                && var size := |PrintLiteral(mode, index, n.value, v.value)|;
                   r == if size > USIZE_MAX then Err(RepresentationLengthOverflow) else Ok(size)
    {
      hide EncodeInteger;
      hide Payload;
      var nameLen := 0;
      if name.LiteralNameText? {
        var len := PayloadLen(std, name.decoded, huffmanName);
        if len.Err? {
          return Err(HuffmanName(len.error));
        }
        nameLen := len.value;
      }
      var valueLen := PayloadLen(std, text, huffmanValue);
      if valueLen.Err? {
        return Err(HuffmanValue(valueLen.error));
      }
      var total := EncodedLen(index, PrefixBits(mode));
      PrefixLength(index, PrefixBits(mode), Flags(mode));
      if name.LiteralNameText? {
        var stringLen := StringLen(nameLen);
        PrefixLength(nameLen, 7, HuffmanFlag(huffmanName));
        if stringLen.None? {
          return Err(RepresentationLengthOverflow);
        }
        total := total + stringLen.value;
      }
      var stringLen := StringLen(valueLen.value);
      PrefixLength(valueLen.value, 7, HuffmanFlag(huffmanValue));
      if stringLen.None? || total + stringLen.value > USIZE_MAX {
        return Err(RepresentationLengthOverflow);
      }
      return Ok(total + stringLen.value);
    }

    /** The payload lengths are machine integers. */
    static ghost predicate TextsFit(name: Option<Text>, text: Text) {
      (name.Some? ==> |name.value.payload| < U64_LIMIT) && |text.payload| < U64_LIMIT
    }

    /** Writes a measured literal at the front of the destination. */
    method WriteLiteral(destination: array<byte>, mode: LiteralMode, index: u64, name: LiteralNameArgument,
                        text: seq<byte>, huffmanName: bool, huffmanValue: bool)
      requires Valid()
      requires destination != table.storage
      requires NameText(std, name, huffmanName).Ok? && ValueText(std, text, huffmanValue).Ok?
      requires var n := NameText(std, name, huffmanName).value;
               var v := ValueText(std, text, huffmanValue).value;
               TextsFit(n, v) && |PrintLiteral(mode, index, n, v)| <= destination.Length
      modifies destination
      ensures var n := NameText(std, name, huffmanName).value;
              var v := ValueText(std, text, huffmanValue).value;
              destination[..] == Splice(old(destination[..]), 0, PrintLiteral(mode, index, n, v))
    {
      hide EncodeInteger;
      hide Payload;
      hide Splice;
      ghost var n, v := NameText(std, name, huffmanName).value, ValueText(std, text, huffmanValue).value;
      ghost var original := destination[..];
      ghost var front, names := EncodeInteger(index, PrefixBits(mode), Flags(mode)), PrintName(n);
      ghost var texts := EncodeString(v.payload, v.huffman);
      SpliceAppend(original, 0, front, names);
      SpliceAppend(original, 0, front + names, texts);
      var at := EncodedLen(index, PrefixBits(mode));
      PrefixLength(index, PrefixBits(mode), Flags(mode));
      WriteCanonical(destination, 0, PrefixBits(mode), Flags(mode), index);
      if name.LiteralNameText? {
        at := WriteString(std, destination, at, name.decoded, huffmanName);
      } else {
        assert front + names == front;
      }
      var end := WriteString(std, destination, at, text, huffmanValue);
    }

    method EncodeLiteralWithHuffman(destination: array<byte>, mode: LiteralMode, name: LiteralNameArgument,
                                    text: seq<byte>, huffmanName: bool, huffmanValue: bool)
      returns (r: Result<nat, EncodeError>)
      requires Valid()
      requires destination != table.storage
      requires |name.decoded| <= ISIZE_MAX && |text| <= ISIZE_MAX
      modifies this, destination, table, table.storage, table.entries
      ensures Valid()
      ensures Did(old(State()), EncodeLiteral(mode, name, text, huffmanName, huffmanValue),
                  old(destination[..]), r, State(), destination[..])
    {
      hide PrintLiteral;
      hide NameText;
      hide ValueText;
      hide LiteralIndex;
      hide Evict;
      hide TotalSize;
      if pending.Next().Some? {
        return Err(SizeUpdateRequired);
      }
      var index := CheckLiteral(mode, name, text, huffmanName);
      if index.Err? {
        return Err(index.error);
      }
      var required := MeasureLiteral(mode, index.value, name, text, huffmanName, huffmanValue);
      if required.Err? {
        return Err(required.error);
      }
      if destination.Length < required.value {
        return Err(BufferTooShort(required.value, destination.Length));
      }
      WriteLiteral(destination, mode, index.value, name, text, huffmanName, huffmanValue);
      if mode == IncrementalIndexing {
        var inserted := table.InsertPrevalidated(name.decoded, text, EntrySize(Field(name.decoded, text)));
      }
      started := true;
      return Ok(required.value);
    }
  }
}
