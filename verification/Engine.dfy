/**
 Structures and their parts decoded and encoded by the engine, from a table
 into memory and from memory into a buffer (libopendmi/src/field-decode.c,
 libopendmi/src/field-encode.c, libopendmi/src/encoder.c).
 */
module Engine {
  import opened Wrappers
  import opened Bytes
  import opened BitRuns
  import opened Schema
  import opened Buffers
  import opened Parts
  import opened DecodingEngine
  import opened EncodingEngine
  import opened WellFormed
  import O = Observed
  import S = Structure
  import D = Decoding
  import E = Encoding

  /** Reads a structure lying in a table, past its header, into zeroed memory. */
  method DecodeStructure(table: Buffer, offset: nat, e: S.Entity, fs: seq<Field>, version: Version)
    returns (ok: bool, info: Info, entity: DecodingEngine.Entity)
    requires table.Valid() && offset + |e.body| <= table.length && S.HEADER_SIZE <= |e.body|
    requires table.Contents()[offset..offset + |e.body|] == e.body
    ensures var r := S.Decode(e, fs, version);
      && ok == r.ok && info == r.info
      && entity.level == r.st.level && entity.isPartial == r.st.partial && entity.isIncomplete == r.st.short
  {
    hide D.DecodeList;
    var reader := new Reader(table, offset, |e.body|);
    var sought := reader.Seek(S.HEADER_SIZE);
    entity := new DecodingEngine.Entity();
    var decoder := new Decoder(reader, entity, version, e.strings, false);
    assert decoder.Source() == S.SourceOf(e, version);
    ok, info := decoder.DecodeList(fs, map[], true);
    decoder.RaiseLevel();
  }

  /**
   Reads a part through a window the reader is narrowed to. The reader is moved
   past the part, and its bound is restored, whatever becomes of the fields.
   */
  method DecodeInto(reader: Reader, entity: DecodingEngine.Entity, version: Version, strings: seq<Option<seq<Byte>>>,
                    fs: seq<Field>, length: nat, info: Info)
    returns (ok: bool, filled: Info)
    requires reader.Valid()
    modifies reader, entity
    ensures reader.Valid() && reader.length == old(reader.length)
    ensures var src := D.Source(old(reader.Range()), old(reader.length), version, strings, false);
      var st := D.Reading(old(reader.position), [], 0, false, false, old(entity.isIncomplete),
                          old(entity.isPartial), old(entity.level), 0, false, false);
      var r := DecodePart(src, fs, length, st, info);
      && (r.None? ==> !ok && filled == info && reader.position == old(reader.position))
      && (r.Some? ==> ok == r.value.ok && filled == r.value.info && reader.position == old(reader.position) + length)
  {
    ghost var src := D.Source(reader.Range(), reader.length, version, strings, false);
    hide D.DecodeList;
    if length > reader.Remaining() {
      return false, info;
    }
    var start, end := reader.position, reader.length;
    reader.length := start + length;
    var part := new Decoder(reader, entity, version, strings, true);
    assert part.Source() == Window(src, start, length);
    ok, filled := part.DecodeList(fs, info, true);
    reader.length := end;
    reader.position := start + length;
  }

  /**
   Writes a part through a window over the bytes of the source it has been
   decoded from, with a state of its own, and pads it out to its length.
   */
  method EncodeFrom(encoder: Encoder, fs: seq<Field>, length: nat, info: Info) returns (ok: bool)
    requires encoder.Valid()
    modifies encoder.Footprint()
    ensures encoder.Valid() && fresh(encoder.Footprint() - old(encoder.Footprint()))
    ensures encoder.Target() == old(encoder.Target())
    ensures var r := EncodePart(encoder.Target(), old(encoder.State()), fs, length, info);
      ok == r.Some? && (ok ==> encoder.State() == r.value)
  {
    hide E.EncodeList, E.Copy, ToBits, Pow2, Encoder.Valid, Encoder.Target, Encoder.State;
    var start := encoder.Tell();
    var value, count, taken, stopped := encoder.bitsValue, encoder.bitsCount, encoder.bitsTaken, encoder.stopped;
    ok := EncodeWindow(encoder, fs, length, info);
    if !ok {
      return;
    }
    var written := encoder.Tell();
    if written < start || written - start > length {
      return false;
    }
    encoder.Copy(length - (written - start));
    encoder.Resume(value, count, taken, stopped);
  }

  /** The bound of the source is restored, whatever becomes of the fields. */
  method EncodeWindow(encoder: Encoder, fs: seq<Field>, length: nat, info: Info) returns (ok: bool)
    requires encoder.Valid()
    modifies encoder.Footprint()
    ensures encoder.Valid() && fresh(encoder.Footprint() - old(encoder.Footprint()))
    ensures encoder.Target() == old(encoder.Target())
    ensures var w := old(encoder.State());
      var r := E.EncodeList(Narrowed(encoder.Target(), w, length), w.(bits := [], taken := 0, stopped := false), fs,
        info);
      ok == r.Some? && (ok ==> encoder.State() == r.value)
  {
    hide E.EncodeList, ToBits, Pow2, Encoder.Valid, Encoder.Target, Encoder.State;
    var end := encoder.source.length;
    encoder.Narrow(length);
    ok := encoder.EncodeList(fs, info);
    encoder.Widen(end);
  }

  /** The source's own header is kept whenever it reads as the one written. */
  method FinishHeader(encoder: Encoder, e: S.Entity, length: Byte) returns (header: seq<Byte>)
    requires encoder.Valid() && encoder.Target() == S.TargetOf(e, encoder.preserve, encoder.version)
    ensures header == S.FinishedHeader(e, encoder.Target(), length)
  {
    header := S.Header(e.kind, length, e.handle);
    if encoder.preserve {
      var got, original := encoder.source.GetBytesAt(0, S.HEADER_SIZE);
      if got {
        var sameHandle := original[2..4] == header[2..4];
        var sameType :=
          if original[1] == 0 then header[0] == S.END_OF_TABLE && header[1] == S.HEADER_SIZE
          else original[0] == header[0] && original[1] == header[1];
        if sameHandle && sameType {
          header := original;
        }
      }
    }
  }

  /** An encoder at the end of a buffer, its source the structure lying in a table. */
  method BeginStructure(out: Buffer, table: Buffer, offset: nat, e: S.Entity, preserve: bool, version: Version)
    returns (encoder: Encoder)
    requires out.Valid() && table.Valid() && out != table && out.data != table.data
    requires offset + |e.body| <= table.length && table.Contents()[offset..offset + |e.body|] == e.body
    modifies out, out.data
    ensures encoder.Valid() && encoder.writer.buffer == out && encoder.before == old(out.Contents())
    ensures encoder.preserve == preserve && encoder.Target() == S.TargetOf(e, preserve, version)
    ensures encoder.State() == S.Begin(e, encoder.Target())
    ensures fresh(encoder.Footprint() - old({out, out.data}))
  {
    hide E.Put, LeStore;
    var writer := new Writer(out, out.length, None);
    var source := new Reader(table, offset, |e.body|);
    assert out.Contents()[..out.length] == out.Contents();
    encoder := new Encoder(writer, source, preserve, version, e.strings);
    assert encoder.Target() == S.TargetOf(e, preserve, version);
    encoder.Begin(S.Header(e.kind, 0, e.handle));
  }

  /** Bytes after the ones the fields describe are the structure's own, and the header comes last. */
  method FinishStructure(encoder: Encoder, e: S.Entity) returns (ok: bool)
    requires encoder.Valid() && encoder.Target() == S.TargetOf(e, encoder.preserve, encoder.version)
    modifies encoder.Footprint()
    ensures encoder.Valid()
    ensures var t, w := old(encoder.Target()), old(encoder.State());
      var r := S.Finish(e, t, E.Copy(t, w, E.Remaining(t, w)));
      ok == r.Some? && (ok ==> encoder.Whole() == encoder.before + r.value)
  {
    hide E.Copy, LeStore, S.FinishedHeader, Encoder.Valid, Encoder.Target, Encoder.State;
    var remaining := encoder.Remaining();
    encoder.Copy(remaining);
    var length := encoder.Tell();
    if length < S.HEADER_SIZE || length > 255 {
      return false;
    }
    var header := FinishHeader(encoder, e, length);
    encoder.PutHeader(header);
    return true;
  }

  /** Writes a structure at the end of a buffer; the source it is kept in step with lies in a table. */
  method EncodeStructure(out: Buffer, table: Buffer, offset: nat, e: S.Entity, fs: seq<Field>, info: Info,
                         preserve: bool, version: Version) returns (ok: bool)
    requires out.Valid() && table.Valid() && out != table && out.data != table.data
    requires offset + |e.body| <= table.length && table.Contents()[offset..offset + |e.body|] == e.body
    modifies out, out.data
    ensures out.Valid()
    ensures var r := S.Encode(e, fs, info, preserve, version);
      ok == r.Some? && (ok ==> out.Contents() == old(out.Contents()) + r.value)
  {
    hide E.EncodeList, E.Copy, E.Put, Encoder.Target, Encoder.State, S.Finish, S.Begin;
    var encoder := BeginStructure(out, table, offset, e, preserve, version);
    ok := encoder.EncodeList(fs, info);
    if ok {
      ok := FinishStructure(encoder, e);
    }
  }

  /**
   A structure which is decoded completely, and written again by what it has
   been decoded into, comes out as the bytes it has been read from.
   */
  method Rewrite(out: Buffer, table: Buffer, offset: nat, e: S.Entity, fs: seq<Field>, version: Version)
    returns (decoded: bool, entity: DecodingEngine.Entity, ok: bool)
    requires out.Valid() && table.Valid() && out != table && out.data != table.data
    requires offset + |e.body| <= table.length && table.Contents()[offset..offset + |e.body|] == e.body
    requires S.IsCreated(e) && IsWellFormed(fs, version) && O.AreStridesSound(fs)
    modifies out, out.data
    ensures out.Valid()
    ensures decoded && !entity.isIncomplete && !S.Decode(e, fs, version).st.misspelt ==>
      ok && out.Contents() == old(out.Contents()) + e.body
  {
    hide S.Decode, S.Encode, IsWellFormed, O.AreStridesSound;
    var info;
    decoded, info, entity := DecodeStructure(table, offset, e, fs, version);
    ghost var complete := decoded && !entity.isIncomplete && !S.Decode(e, fs, version).st.misspelt;
    if complete {
      O.CompleteIdentity(e, fs, version);
    }
    ok := EncodeStructure(out, table, offset, e, fs, info, true, version);
  }
}
