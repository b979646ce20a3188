/** The decoder's objects: a connection's context and one block under way, over its own table. */
module HpackDecoder {
  import opened Machine
  import opened HpackFields
  import opened HpackTable
  import opened HpackRepresentation
  import opened HpackContext
  import opened HpackSession
  import HuffmanCode
  import HuffmanCodec

  class HpackDecoderContext {
    const std: Standard
    const table: HpackDynamicTable
    const pending: PendingSizes
    var allowed: nat

    ghost function State(): Session
      requires table.Valid()
      reads this, pending, table, table.storage, table.entries
    {
      Session(table.Contents(), table.maximumSize, allowed, pending.Owed())
    }

    ghost predicate Valid()
      reads this, pending, table, table.storage, table.entries
    {
      std.Valid() && table.Valid() && State().Valid(table.capacity)
    }

    constructor (std: Standard, table: HpackDynamicTable, allowed: nat)
      requires std.Valid() && table.Valid() && allowed <= table.capacity
      ensures Valid() && this.std == std && this.table == table && fresh(pending)
      ensures State() == Session.Start(table.Contents(), table.maximumSize, allowed)
    {
      this.std := std;
      this.table := table;
      this.allowed := allowed;
      this.pending := new PendingSizes();
      new;
      pending.QueueInitial(table.maximumSize, allowed);
    }

    static method Create(std: Standard, table: HpackDynamicTable, allowed: nat)
      returns (r: Result<HpackDecoderContext, DecodeError>)
      requires std.Valid() && table.Valid()
      ensures allowed > table.capacity ==> r == Err(LimitExceedsCapacity(allowed, table.capacity))
      ensures allowed <= table.capacity ==>
                && r.Ok? && fresh(r.value) && fresh(r.value.pending) && r.value.table == table && r.value.std == std
                && r.value.Valid() && r.value.State() == Session.Start(table.Contents(), table.maximumSize, allowed)
    {
      if allowed > table.capacity {
        return Err(LimitExceedsCapacity(allowed, table.capacity));
      }
      var created := new HpackDecoderContext(std, table, allowed);
      return Ok(created);
    }

    method SetAllowedMaximumSize(limit: nat) returns (r: Result<(), DecodeError>)
      requires Valid()
      modifies this, pending
      ensures Valid()
      ensures r == if limit > table.capacity then Err(LimitExceedsCapacity(limit, table.capacity)) else Ok(())
      ensures State() == if limit > table.capacity then old(State()) else old(State()).Change(limit)
    {
      if limit > table.capacity {
        return Err(LimitExceedsCapacity(limit, table.capacity));
      }
      if limit != allowed {
        pending.RecordChange(limit);
        allowed := limit;
      }
      return Ok(());
    }

    method DecodeBlock(block: seq<byte>) returns (decoder: HpackBlockDecoder)
      requires Valid() && |block| <= ISIZE_MAX
      ensures fresh(decoder) && decoder.Valid()
      ensures decoder.table == table && decoder.pending == pending && decoder.std == std
      ensures decoder.State() == Block(State(), false) && decoder.remaining == block
    {
      decoder := new HpackBlockDecoder(std, block, table, pending, allowed);
    }
  }

  /** The decoded length of a string, or why its Huffman coding is rejected. */
  method TextLen(std: Standard, view: StringView) returns (r: Result<nat, HuffmanCode.DecodeError>)
    requires std.Valid() && |view.length.bytes| <= |view.bytes| <= ISIZE_MAX
    ensures r == match TextOf(std, view)
                 case Err(e) => Err(e)
                 case Ok(text) => Ok(|text|)
  {
    if view.IsHuffman() {
      r := HuffmanCodec.DecodedLen(std.codes, view.EncodedBytes());
    } else {
      r := Ok(|view.EncodedBytes()|);
    }
  }

  datatype HuffmanFailure =
    | Rejected(error: HuffmanCode.DecodeError)
    | HuffmanOutputTooShort(required: nat, available: nat)

  /** The Huffman decoder: it validates and measures its input again before it writes. */
  method HuffmanDecode(std: Standard, encoded: seq<byte>, target: array<byte>, from: nat, to: nat)
    returns (r: Result<(), HuffmanFailure>)
    requires std.Valid() && |encoded| <= ISIZE_MAX && from <= to <= target.Length
    modifies target
    ensures match HuffmanCode.Decode(std.codes, encoded)
            case Err(e) => r == Err(Rejected(e)) && target[..] == old(target[..])
            case Ok(text) =>
              if to - from < |text| then
                r == Err(HuffmanOutputTooShort(|text|, to - from)) && target[..] == old(target[..])
              else
                r == Ok(()) && target[..] == Splice(old(target[..]), from, text)
  {
    var required := HuffmanCodec.DecodedLen(std.codes, encoded);
    if required.Err? {
      return Err(Rejected(required.error));
    }
    if to - from < required.value {
      return Err(HuffmanOutputTooShort(required.value, to - from));
    }
    HuffmanCodec.DecodePrevalidated(std.codes, encoded, target, from);
    return Ok(());
  }

  /** Writes a string whose decoded length is already known to be `to - from`. This cannot fail. */
  method WriteText(std: Standard, view: StringView, target: array<byte>, from: nat, to: nat)
    requires std.Valid() && |view.length.bytes| <= |view.bytes| <= ISIZE_MAX
    requires TextOf(std, view).Ok? && from + |TextOf(std, view).value| == to <= target.Length
    modifies target
    ensures target[..] == Splice(old(target[..]), from, TextOf(std, view).value)
  {
    if view.IsHuffman() {
      var decoded := HuffmanDecode(std, view.EncodedBytes(), target, from, to);
      if decoded.Err? {
        assert false; // the input was validated and measured before
      }
    } else {
      CopyFromSlice(target, from, view.EncodedBytes());
    }
  }

  class HpackBlockDecoder {
    const std: Standard
    const table: HpackDynamicTable
    const pending: PendingSizes
    const allowed: nat
    var remaining: seq<byte>
    var sawField: bool

    ghost function State(): Block
      requires table.Valid()
      reads this, pending, table, table.storage, table.entries
    {
      Block(Session(table.Contents(), table.maximumSize, allowed, pending.Owed()), sawField)
    }

    ghost predicate Valid()
      reads this, pending, table, table.storage, table.entries
    {
      std.Valid() && table.Valid() && State().session.Valid(table.capacity) && |remaining| <= ISIZE_MAX
    }

    constructor (std: Standard, block: seq<byte>, table: HpackDynamicTable, pending: PendingSizes, allowed: nat)
      requires std.Valid() && table.Valid() && |block| <= ISIZE_MAX
      requires Session(table.Contents(), table.maximumSize, allowed, pending.Owed()).Valid(table.capacity)
      ensures Valid() && this.std == std && this.table == table && this.pending == pending && remaining == block
      ensures State() == Block(Session(table.Contents(), table.maximumSize, allowed, pending.Owed()), false)
    {
      this.std := std;
      this.table := table;
      this.pending := pending;
      this.allowed := allowed;
      this.remaining := block;
      this.sawField := false;
    }

    /**
     * The call did what the decoding step says: on success the field is at the front of the
     * output and the state has moved; on failure nothing at all has changed.
     */
    ghost predicate Did(expected: Result<Decoded, DecodeError>, before: Block, input: seq<byte>, output: seq<byte>,
                        r: Result<Step, DecodeError>, after: Block, rest: seq<byte>, written: seq<byte>)
    {
      match expected
      case Err(e) => r == Err(e) && after == before && rest == input && written == output
      case Ok(d) =>
        && r == Ok(d.step) && after == d.block && rest == d.remaining
        && if d.step.FieldStep? then
             && |d.step.f.name + d.step.f.value| <= |output|
             && written == Splice(output, 0, d.step.f.name + d.step.f.value)
           else written == output
    }

    method ApplySizeUpdate(r: Representation) returns (step: Result<Step, DecodeError>)
      requires Valid() && ParseRepresentation(remaining) == Ok(r) && r.SizeUpdate?
      modifies this, pending, table
      ensures Valid()
      ensures forall output: seq<byte> ::
                Did(DecodeSizeUpdate(table.capacity, old(State()), old(remaining), r), old(State()), old(remaining),
                    output, step, State(), remaining, output)
    {
      hide ParseRepresentation;
      hide Evict;
      if sawField {
        return Err(DecodedSizeUpdateAfterField);
      }
      var limit := r.size.value;
      var expected := pending.Next();
      if expected.Some? && limit != expected.value {
        return Err(DecodedSizeUpdateMismatch(expected.value, limit));
      }
      if limit > allowed {
        return Err(DecodedSizeUpdateExceedsAllowed(limit, allowed));
      }
      ParsedIsPrefix(remaining);
      var applied := table.SetMaximumSize(limit);
      if applied.Err? {
        assert false; // the allowed limit is within the capacity
      }
      remaining := remaining[|r.AsBytes()|..];
      if pending.Next().Some? {
        pending.Advance();
      }
      return Ok(SizeUpdateStep(limit));
    }

    method ReadIndexed(output: array<byte>, r: Representation) returns (step: Result<Step, DecodeError>)
      requires Valid() && ParseRepresentation(remaining) == Ok(r) && r.Indexed?
      requires output != table.storage
      modifies this, output
      ensures Valid()
      ensures Did(DecodeIndexed(std, old(State()), old(remaining), r, output.Length), old(State()), old(remaining),
                  old(output[..]), step, State(), remaining, output[..])
    {
      hide ParseRepresentation;
      hide Resolve;
      var found := Lookup(std, table, r.index.value);
      if found.None? {
        return Err(DecodedUnavailableIndex(r.index.value));
      }
      var f := found.value;
      var required := |f.name| + |f.value|;
      if required > USIZE_MAX {
        return Err(DecodedLengthOverflow);
      }
      if output.Length < required {
        return Err(OutputTooShort(required, output.Length));
      }
      SpliceAppend(output[..], 0, f.name, f.value);
      CopyFromSlice(output, 0, f.name);
      CopyFromSlice(output, |f.name|, f.value);
      ParsedIsPrefix(remaining);
      remaining := remaining[|r.AsBytes()|..];
      sawField := true;
      return Ok(FieldStep(f, ByIndex));
    }

    /** The decoded length of a literal's name, from the table or from the literal itself. */
    method NameLength(r: Representation) returns (len: Result<nat, DecodeError>)
      requires Valid() && r.Literal?
      requires r.name.Some? ==> |r.name.value.length.bytes| <= |r.name.value.bytes| <= ISIZE_MAX
      ensures len == match LiteralNameOf(std, table.Contents(), r.nameIndex.value, r.name)
                     case Err(e) => Err(e)
                     case Ok(name) => Ok(|name|)
    {
      match r.name {
        case Some(view) =>
          var textLen := TextLen(std, view);
          if textLen.Err? {
            return Err(BadHuffmanName(textLen.error));
          }
          return Ok(textLen.value);
        case None =>
          var found := Lookup(std, table, r.nameIndex.value);
          if found.None? {
            return Err(DecodedUnavailableIndex(r.nameIndex.value));
          }
          return Ok(|found.value.name|);
      }
    }

    /** Writes a measured field at the front of the output: the name, then the value. */
    method WriteField(output: array<byte>, r: Representation, nameLen: nat, required: nat)
      requires Valid() && r.Literal? && output != table.storage
      requires r.name.Some? ==> |r.name.value.length.bytes| <= |r.name.value.bytes| <= ISIZE_MAX
      requires |r.text.length.bytes| <= |r.text.bytes| <= ISIZE_MAX
      requires LiteralFieldOf(std, table.Contents(), r).Ok?
      requires var f := LiteralFieldOf(std, table.Contents(), r).value;
               nameLen == |f.name| && required == |f.name| + |f.value| <= output.Length
      modifies output
      ensures var f := LiteralFieldOf(std, old(table.Contents()), r).value;
              output[..] == Splice(old(output[..]), 0, f.name + f.value)
    {
      hide TextOf;
      hide Resolve;
      ghost var f := LiteralFieldOf(std, table.Contents(), r).value;
      SpliceAppend(output[..], 0, f.name, f.value);
      match r.name {
        case Some(view) => WriteText(std, view, output, 0, nameLen);
        case None => CopyFromSlice(output, 0, Lookup(std, table, r.nameIndex.value).value.name);
      }
      WriteText(std, r.text, output, nameLen, required);
    }

    /** Everything that can stop a literal, found before anything is written: its two lengths otherwise. */
    method MeasureField(r: Representation, room: nat) returns (lens: Result<(nat, nat), DecodeError>)
      requires Valid() && r.Literal?
      requires r.name.Some? ==> |r.name.value.length.bytes| <= |r.name.value.bytes| <= ISIZE_MAX
      requires |r.text.length.bytes| <= |r.text.bytes| <= ISIZE_MAX
      ensures lens == match LiteralFieldOf(std, table.Contents(), r)
                      case Err(e) => Err(e)
                      case Ok(f) =>
                        match CheckRoom(f, room)
                        case Err(e) => Err(e)
                        case Ok(_) =>
                          if r.mode == IncrementalIndexing && EntrySize(f) > USIZE_MAX
                          then Err(DecodeError.EntrySizeOverflow)
                          else Ok((|f.name|, |f.name| + |f.value|))
    {
      hide TextOf;
      hide LiteralNameOf;
      var nameLen := NameLength(r);
      if nameLen.Err? {
        return Err(nameLen.error);
      }
      var valueLen := TextLen(std, r.text);
      if valueLen.Err? {
        return Err(BadHuffmanValue(valueLen.error));
      }
      var required := nameLen.value + valueLen.value;
      if required > USIZE_MAX {
        return Err(DecodedLengthOverflow);
      }
      if room < required {
        return Err(OutputTooShort(required, room));
      }
      if r.mode == IncrementalIndexing && required + OVERHEAD > USIZE_MAX {
        return Err(DecodeError.EntrySizeOverflow);
      }
      return Ok((nameLen.value, required));
    }

    /** Writes a measured field, and inserts it when it is to be indexed. */
    method CommitField(output: array<byte>, r: Representation, nameLen: nat, required: nat) returns (f: Field)
      requires Valid() && r.Literal? && output != table.storage
      requires r.name.Some? ==> |r.name.value.length.bytes| <= |r.name.value.bytes| <= ISIZE_MAX
      requires |r.text.length.bytes| <= |r.text.bytes| <= ISIZE_MAX
      requires LiteralFieldOf(std, table.Contents(), r).Ok?
      requires var f := LiteralFieldOf(std, table.Contents(), r).value;
               nameLen == |f.name| && required == |f.name| + |f.value| <= output.Length
      modifies output, table, table.storage, table.entries
      ensures Valid()
      ensures f == LiteralFieldOf(std, old(table.Contents()), r).value
      ensures output[..] == Splice(old(output[..]), 0, f.name + f.value)
      ensures State().session == AfterLiteral(old(State()).session, r.mode, f)
    {
      hide LiteralFieldOf;
      hide Evict;
      hide TotalSize;
      ghost var expected := LiteralFieldOf(std, table.Contents(), r).value;
      FrontOfSplice(output[..], expected.name, expected.value);
      WriteField(output, r, nameLen, required);
      f := Field(output[..nameLen], output[nameLen..required]);
      assert f.name == output[..][..nameLen] && f.value == output[..][nameLen..required];
      if r.mode == IncrementalIndexing {
        var inserted := table.InsertPrevalidated(f.name, f.value, required + OVERHEAD);
      }
    }

    method ReadLiteral(output: array<byte>, r: Representation) returns (step: Result<Step, DecodeError>)
      requires Valid() && ParseRepresentation(remaining) == Ok(r) && r.Literal?
      requires output != table.storage
      modifies this, output, table, table.storage, table.entries
      ensures Valid()
      ensures Did(DecodeLiteral(std, old(State()), old(remaining), r, output.Length), old(State()), old(remaining),
                  old(output[..]), step, State(), remaining, output[..])
    {
      ParsedLiteralSizes(remaining);
      ParsedIsPrefix(remaining);
      hide ParseRepresentation;
      hide LiteralFieldOf;
      hide Insert;
      hide TotalSize;
      var lens := MeasureField(r, output.Length);
      if lens.Err? {
        return Err(lens.error);
      }
      var f := CommitField(output, r, lens.value.0, lens.value.1);
      remaining := remaining[|r.AsBytes()|..];
      sawField := true;
      return Ok(FieldStep(f, ByLiteral(r.mode)));
    }

    /** Decodes or applies exactly one representation. */
    method DecodeNext(output: array<byte>) returns (step: Result<Step, DecodeError>)
      requires Valid()
      requires output != table.storage
      modifies this, output, pending, table, table.storage, table.entries
      ensures Valid()
      ensures Did(DecodeStep(std, table.capacity, old(State()), old(remaining), output.Length), old(State()),
                  old(remaining), old(output[..]), step, State(), remaining, output[..])
    {
      hide ParseRepresentation;
      hide DecodeIndexed;
      hide DecodeLiteral;
      hide DecodeSizeUpdate;
      if |remaining| == 0 {
        if pending.Next().Some? {
          return Err(DecodedSizeUpdateRequired);
        }
        return Ok(Complete);
      }
      var parsed := ParseRepresentation(remaining);
      if parsed.Err? {
        return Err(BadRepresentation(parsed.error));
      }
      match parsed.value {
        case SizeUpdate(_) =>
          step := ApplySizeUpdate(parsed.value);
        case Indexed(_) =>
          if pending.Next().Some? {
            return Err(DecodedSizeUpdateRequired);
          }
          step := ReadIndexed(output, parsed.value);
        case Literal(_, _, _, _, _) =>
          if pending.Next().Some? {
            return Err(DecodedSizeUpdateRequired);
          }
          step := ReadLiteral(output, parsed.value);
      }
    }
  }

  lemma FrontOfSplice(before: seq<byte>, name: seq<byte>, text: seq<byte>)
    requires |name + text| <= |before|
    ensures var after := Splice(before, 0, name + text);
            after[..|name|] == name && after[|name|..|name| + |text|] == text
  {
    var after := Splice(before, 0, name + text);
    assert after[..|name + text|] == name + text;
  }
}
