/**
 Whole structures: decoding one from its formatted area, and encoding it back
 with its header (libopendmi/src/decoder.c, libopendmi/src/encoder.c).
 */
module Structure {
  import opened Wrappers
  import opened Bytes
  import opened BitRuns
  import opened Schema
  import opened WellFormed
  import opened Lockstep
  import opened Scalars
  import opened Preserve
  import opened Arrays
  import opened Identity
  import D = Decoding
  import E = Encoding

  const HEADER_SIZE: nat := 4
  const END_OF_TABLE: nat := 127

  /** A structure as it has been found in a table. */
  datatype Entity = Entity(kind: Byte, handle: nat, body: seq<Byte>, strings: seq<Option<seq<Byte>>>)

  /**
   A structure of the formatted area it has been created from. A header of no
   length stands for the end of the table, whatever type it names.
   */
  predicate IsCreated(e: Entity) {
    && HEADER_SIZE <= |e.body| <= 255
    && e.handle == LeLoad(e.body[2..4])
    && (if e.body[1] == 0 then e.kind == END_OF_TABLE && |e.body| == HEADER_SIZE
        else e.kind == e.body[0] && |e.body| == e.body[1])
  }

  function SourceOf(e: Entity, version: Version): (src: D.Source)
    ensures src.Valid()
  {
    D.Source(e.body, |e.body|, version, e.strings, false)
  }

  /** Header has been read before the structure is decoded at all. */
  const START := D.Reading(HEADER_SIZE, [], 0, false, false, false, false, 0, 0, false, false)

  /** Decoding of a structure into zeroed memory; the ranges of bits raise its level last. */
  function Decode(e: Entity, fs: seq<Field>, version: Version): (r: D.Outcome) {
    var r := D.DecodeList(SourceOf(e, version), fs, START, map[], true);
    r.(st := r.st.(level := Max(r.st.level, r.st.defined)))
  }

  function Header(kind: Byte, length: Byte, handle: nat): (h: seq<Byte>)
    ensures |h| == HEADER_SIZE
  {
    [kind, length] + LeStore(handle, 2)
  }

  function TargetOf(e: Entity, preserve: bool, version: Version): (t: E.Target)
    ensures t.Valid()
  {
    E.Target(preserve, e.body, |e.body|, version, e.strings)
  }

  /** The encoder writes a header of no length first; strings keep their numbers in the preserve mode. */
  function Begin(e: Entity, t: E.Target): E.Writing {
    E.Put(t, E.Writing([], 0, [], 0, false, if t.preserve then e.strings else []), Header(e.kind, 0, e.handle))
  }

  /** The source's own header is kept whenever it reads as the one written. */
  function FinishedHeader(e: Entity, t: E.Target, length: Byte): (h: seq<Byte>)
    requires t.Valid()
    ensures |h| == HEADER_SIZE
  {
    var header := Header(e.kind, length, e.handle);
    if t.preserve && HEADER_SIZE <= t.end then
      var original := t.body[..HEADER_SIZE];
      var same :=
        && original[2..4] == header[2..4]
        && (if original[1] == 0 then header[0] == END_OF_TABLE && header[1] == HEADER_SIZE
            else original[0] == header[0] && original[1] == header[1]);
      if same then original else header
    else header
  }

  function Finish(e: Entity, t: E.Target, w: E.Writing): Option<seq<Byte>>
    requires t.Valid()
  {
    if |w.out| < HEADER_SIZE || |w.out| > 255 then None
    else Some(FinishedHeader(e, t, |w.out|) + w.out[HEADER_SIZE..])
  }

  /** Encoding of a structure; the bytes after the ones the fields describe are its own. */
  function Encode(e: Entity, fs: seq<Field>, info: Info, preserve: bool, version: Version): (r: Option<seq<Byte>>) {
    var t := TargetOf(e, preserve, version);
    match E.EncodeList(t, Begin(e, t), fs, info)
    case None => None
    case Some(w) => Finish(e, t, E.Copy(t, w, E.Remaining(t, w)))
  }

  /**
   Preserve mode: a structure which has been decoded, and not been changed, is
   encoded into the very bytes it has been decoded from.
   */
  lemma PreserveIdentity(e: Entity, fs: seq<Field>, version: Version)
    requires IsCreated(e) && IsWellFormed(fs, version)
    requires !Decode(e, fs, version).st.lost
    ensures Encode(e, fs, Decode(e, fs, version).info, true, version) == Some(e.body)
  {
    hide IsWellFormed, D.DecodeList, E.EncodeList;
    var src, t := SourceOf(e, version), TargetOf(e, true, version);
    var h := Header(e.kind, 0, e.handle);
    var w := Begin(e, t);
    assert w.out == h + t.body[|h|..w.pos] by {
      assert t.body[|h|..|h|] == [];
    }
    ListKeeps(src, START, t, h, w, fs, map[], true);
    var w' := E.EncodeList(t, w, fs, Decode(e, fs, version).info).value;
    CopyKeeps(t, h, w', E.Remaining(t, w'));
    var out := E.Copy(t, w', E.Remaining(t, w')).out;
    assert out == h + e.body[HEADER_SIZE..];
    HeaderIsKept(e, t);
    assert out[HEADER_SIZE..] == e.body[HEADER_SIZE..];
    assert e.body == e.body[..HEADER_SIZE] + e.body[HEADER_SIZE..];
  }

  lemma HeaderIsKept(e: Entity, t: E.Target)
    requires IsCreated(e) && t == TargetOf(e, true, t.version)
    ensures FinishedHeader(e, t, |e.body|) == e.body[..HEADER_SIZE]
  {
    StoreLoad(e.body[2..4]);
    assert e.body[..HEADER_SIZE][2..4] == e.body[2..4];
  }
}
