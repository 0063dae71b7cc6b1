/**
 A part of a structure, which a handler of its own decodes and encodes through
 a window over its bytes (libopendmi/src/field-decode.c,
 libopendmi/src/field-encode.c).
 */
module Parts {
  import opened Wrappers
  import opened Bytes
  import opened BitRuns
  import opened Schema
  import opened WellFormed
  import opened Lockstep
  import opened Scalars
  import opened Preserve
  import opened Arrays
  import opened Identity
  import D = Decoding
  import E = Encoding

  function Window(src: D.Source, from: nat, length: nat): (window: D.Source)
    requires src.Valid() && from + length <= src.end
    ensures window.Valid()
  {
    src.(end := from + length, part := true)
  }

  /** A part is read with a state of its own; the level and the flags are the structure's. */
  function PartStart(st: D.Reading): D.Reading {
    D.Reading(st.pos, [], 0, false, false, st.short, st.partial, st.level, 0, false, false)
  }

  /** Fields of a part, if the bytes of it are there. */
  function DecodePart(src: D.Source, fs: seq<Field>, length: nat, st: D.Reading, info: Info): (r: Option<D.Outcome>)
    requires src.Valid()
  {
    if st.pos > src.end || length > D.Remaining(src, st) then None
    else Some(D.DecodeList(Window(src, st.pos, length), fs, PartStart(st), info, true))
  }

  function Narrowed(t: E.Target, w: E.Writing, length: nat): (window: E.Target)
    requires t.Valid()
    ensures window.Valid()
  {
    if E.Remaining(t, w) > length then t.(end := w.pos + length) else t
  }

  /** A part takes the bytes it is given, whatever its fields describe of them. */
  function EncodePart(t: E.Target, w: E.Writing, fs: seq<Field>, length: nat, info: Info): (r: Option<E.Writing>)
    requires t.Valid()
    ensures r.Some? ==> |r.value.out| == |w.out| + length
  {
    match E.EncodeList(Narrowed(t, w, length), w.(bits := [], taken := 0, stopped := false), fs, info)
    case None => None
    case Some(w') =>
      if |w'.out| < |w.out| || |w'.out| - |w.out| > length then None
      else
        var rest := E.Copy(t, w', length - (|w'.out| - |w.out|));
        Some(rest.(bits := w.bits, taken := w.taken, stopped := w.stopped))
  }

  /**
   Preserve mode: a part which has been decoded is encoded into its own bytes,
   and the structure goes on in step after it.
   */
  lemma PartIdentity(src: D.Source, st: D.Reading, t: E.Target, h: seq<Byte>, w: E.Writing,
                     fs: seq<Field>, length: nat, info: Info)
    requires HasReached(src, st, t, h, w) && IsWellFormed(fs, src.version)
    requires length <= D.Remaining(src, st) && !DecodePart(src, fs, length, st, info).value.st.lost
    ensures var r := EncodePart(t, w, fs, length, DecodePart(src, fs, length, st, info).value.info);
      && r.Some?
      && r.value.out == w.out + src.body[st.pos..st.pos + length]
      && HasReached(src, st.(pos := st.pos + length), t, h, r.value)
  {
    hide IsWellFormed, D.DecodeList, E.EncodeList, D.IsLater, E.Copy;
    var src', t' := Window(src, st.pos, length), Narrowed(t, w, length);
    var w0 := w.(bits := [], taken := 0, stopped := false);
    var out := D.DecodeList(src', fs, PartStart(st), info, true);
    WindowIsReached(src, st, t, h, w, length);
    ListKeeps(src', PartStart(st), t', w.out, w0, fs, info, true);
    var w' := E.EncodeList(t', w0, fs, out.info).value;
    CopyKeeps(t, w.out, w', length - (|w'.out| - |w.out|));
    KeptSince(t, h, w, E.Copy(t, w', length - (|w'.out| - |w.out|)));
  }

  /** What has been written before is the beginning of what a part is written behind. */
  lemma WindowIsReached(src: D.Source, st: D.Reading, t: E.Target, h: seq<Byte>, w: E.Writing, length: nat)
    requires HasReached(src, st, t, h, w) && length <= D.Remaining(src, st)
    ensures HasReached(Window(src, st.pos, length), PartStart(st), Narrowed(t, w, length), w.out,
                       w.(bits := [], taken := 0, stopped := false))
    ensures |w.out| == w.pos == st.pos && Narrowed(t, w, length).end == w.pos + length
  {
    assert t.body[|w.out|..w.pos] == [];
  }

  lemma KeptSince(t: E.Target, h: seq<Byte>, w: E.Writing, w': E.Writing)
    requires IsKept(t, h, w) && IsKept(t, w.out, w')
    ensures IsKept(t, h, w') && |w.out| == w.pos
  {
    assert t.body[|h|..w'.pos] == t.body[|h|..w.pos] + t.body[w.pos..w'.pos];
  }
}
