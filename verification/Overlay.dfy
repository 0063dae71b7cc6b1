/**
 Additional information laid over the bodies of structures
 (libopendmi/src/entity.c).
 */
module Overlays {
  import opened Wrappers
  import opened Bytes
  import opened Buffers

  const HEADER_SIZE: nat := 4
  const ADDITIONAL_INFO: nat := 40

  /** Bytes which take the place of those of a structure. */
  datatype Entry = Entry(offset: nat, value: seq<Byte>)

  predicate Covers(e: Entry, p: nat) {
    e.offset <= p < e.offset + |e.value|
  }

  /** Headers stay as they are, and so do strings. */
  predicate IsApplicable(e: Entry, size: nat) {
    HEADER_SIZE <= e.offset && e.offset + |e.value| <= size
  }

  predicate AreApplicable(entries: seq<Entry>, size: nat) {
    forall k | 0 <= k < |entries| :: IsApplicable(entries[k], size)
  }

  /** The entry attached last of those which have a byte. */
  function LastOf(entries: seq<Entry>, p: nat): (k: Option<nat>)
    ensures k.Some? ==> k.value < |entries| && Covers(entries[k.value], p)
    ensures forall l | (if k.Some? then k.value + 1 else 0) <= l < |entries| :: !Covers(entries[l], p)
  {
    if entries == [] then None
    else
      var n := |entries| - 1;
      if Covers(entries[n], p) then Some(n) else LastOf(entries[..n], p)
  }

  function ByteAt(body: seq<Byte>, entries: seq<Entry>, p: nat): Byte
    requires p < |body|
  {
    var k := LastOf(entries, p);
    if k.None? then body[p] else entries[k.value].value[p - entries[k.value].offset]
  }

  /** Entries are applied one after another. */
  function Overlaid(body: seq<Byte>, entries: seq<Entry>): (r: seq<Byte>)
    decreases |entries|
  {
    if entries == [] then body
    else
      var n := |entries| - 1;
      Overwritten(Overlaid(body, entries[..n]), entries[n].offset, entries[n].value)
  }

  /**
   The body keeps its length and its header, and every other byte comes from
   the last entry which has it, or from the body.
   */
  lemma {:induction false} OverlaidBytes(body: seq<Byte>, entries: seq<Entry>)
    requires AreApplicable(entries, |body|)
    ensures |Overlaid(body, entries)| == |body|
    ensures forall p | 0 <= p < |body| :: Overlaid(body, entries)[p] == ByteAt(body, entries, p)
    ensures |body| >= HEADER_SIZE ==> Overlaid(body, entries)[..HEADER_SIZE] == body[..HEADER_SIZE]
    decreases |entries|
  {
    if entries != [] {
      var n := |entries| - 1;
      var e, before := entries[n], Overlaid(body, entries[..n]);
      OverlaidBytes(body, entries[..n]);
      assert IsApplicable(e, |body|);
      forall p | 0 <= p < |body|
        ensures Overlaid(body, entries)[p] == ByteAt(body, entries, p)
      {
        assert LastOf(entries, p) == if Covers(e, p) then Some(n) else LastOf(entries[..n], p);
      }
    }
    HeaderStays(body, entries);
  }

  lemma HeaderStays(body: seq<Byte>, entries: seq<Entry>)
    requires AreApplicable(entries, |body|) && |Overlaid(body, entries)| == |body|
    requires forall p | 0 <= p < |body| :: Overlaid(body, entries)[p] == ByteAt(body, entries, p)
    ensures |body| >= HEADER_SIZE ==> Overlaid(body, entries)[..HEADER_SIZE] == body[..HEADER_SIZE]
  {
    forall p | 0 <= p < HEADER_SIZE && p < |body|
      ensures Overlaid(body, entries)[p] == body[p]
    {
      assert forall k | 0 <= k < |entries| :: IsApplicable(entries[k], |body|) && !Covers(entries[k], p);
    }
  }

  class Structure {
    const kind: nat
    const body: seq<Byte>
    var isDecoded: bool
    var overlays: seq<Entry>

    ghost predicate Valid()
      reads `overlays
    {
      AreApplicable(overlays, |body|)
    }

    constructor (kind: nat, body: seq<Byte>)
      ensures Valid() && this.kind == kind && this.body == body && overlays == [] && !isDecoded
    {
      this.kind, this.body, overlays, isDecoded := kind, body, [], false;
    }

    /** An entry is attached unless it comes too late, or is about what it may not be about. */
    method AddOverlay(entries: seq<Entry>, index: nat) returns (ok: bool)
      requires Valid()
      modifies `overlays
      ensures Valid()
      ensures ok <==> index < |entries| && !isDecoded && kind != ADDITIONAL_INFO && IsApplicable(entries[index], |body|)
      ensures overlays == if ok then old(overlays) + [entries[index]] else old(overlays)
    {
      if index >= |entries| || isDecoded || kind == ADDITIONAL_INFO {
        return false;
      }
      var e := entries[index];
      if e.offset < HEADER_SIZE || e.offset + |e.value| > |body| {
        return false;
      }
      overlays := overlays + [e];
      return true;
    }

    /** A copy of the body, which is what is decoded of the structure. */
    method ApplyOverlays() returns (overlay: Buffer)
      requires Valid()
      ensures fresh(overlay) && fresh(overlay.data) && overlay.Valid()
      ensures |overlay.Contents()| == |body|
      ensures forall p | 0 <= p < |body| :: overlay.Contents()[p] == ByteAt(body, overlays, p)
      ensures |body| >= HEADER_SIZE ==> overlay.Contents()[..HEADER_SIZE] == body[..HEADER_SIZE]
    {
      overlay := new Buffer();
      overlay.Write(0, body);
      AppendedIsConcat([], body);
      for k := 0 to |overlays|
        invariant fresh(overlay) && fresh(overlay.data) && overlay.Valid()
        invariant overlay.Contents() == Overlaid(body, overlays[..k])
      {
        assert overlays[..k + 1][..k] == overlays[..k];
        overlay.Write(overlays[k].offset, overlays[k].value);
      }
      assert overlays[..|overlays|] == overlays;
      OverlaidBytes(body, overlays);
    }
  }
}
