/**
 Tables of structures: how a structure is told apart from the bytes after it,
 and how a table is cut into structures (libopendmi/src/entity.c,
 libopendmi/src/registry.c).
 */
module Tables {
  import opened Wrappers
  import opened Bytes
  import opened StringSets

  const HEADER_SIZE: nat := 4
  const END_OF_TABLE: nat := 127

  /** A structure is where its header, its body and its string set are. */
  datatype Structure = Structure(kind: nat, handle: nat, offset: nat, body: nat, extra: nat, strings: nat) {
    function StringsAt(): nat { offset + body }
    function End(): nat { offset + body + extra }
  }

  datatype Creation = Created(structure: Structure) | Truncated | BadLength

  function HandleOf(low: nat, high: nat): nat {
    low + 256 * high
  }

  function HandleAt(table: seq<Byte>, offset: nat): nat
    requires offset + HEADER_SIZE <= |table|
  {
    HandleOf(table[offset + 2], table[offset + 3])
  }

  /** A header telling no length ends the table. */
  function KindAt(table: seq<Byte>, offset: nat): nat
    requires offset + HEADER_SIZE <= |table|
  {
    if table[offset + 1] == 0 then END_OF_TABLE else table[offset]
  }

  function BodyAt(table: seq<Byte>, offset: nat): nat
    requires offset + HEADER_SIZE <= |table|
  {
    if table[offset + 1] == 0 then HEADER_SIZE else table[offset + 1]
  }

  function CreateAt(table: seq<Byte>, offset: nat): (r: Creation)
    ensures r.Created? ==>
      && r.structure.offset == offset && r.structure.End() <= |table|
      && r.structure.body >= HEADER_SIZE && r.structure.extra >= 2
  {
    if |table| < offset + HEADER_SIZE + 2 then Truncated
    else if BodyAt(table, offset) < HEADER_SIZE then BadLength
    else
      var extent := ScanSet(table, offset + BodyAt(table, offset));
      if extent.None? then Truncated
      else Created(Structure(KindAt(table, offset), HandleAt(table, offset), offset, BodyAt(table, offset),
                             extent.value.length, extent.value.count))
  }

  /** The checks come in the order of the bytes they make safe to look at. */
  method CreateStructure(table: seq<Byte>, offset: nat) returns (r: Creation)
    ensures r == CreateAt(table, offset)
  {
    var available := if offset < |table| then |table| - offset else 0;
    if available < HEADER_SIZE + 2 {
      return Truncated;
    }
    var kind: nat, length: nat := table[offset], table[offset + 1];
    var handle := HandleOf(table[offset + 2], table[offset + 3]);
    if length == 0 {
      kind := END_OF_TABLE;
      length := HEADER_SIZE;
    } else if length < HEADER_SIZE {
      return BadLength;
    } else if length > available {
      return Truncated;
    }
    var extent := DecodeLength(table, offset + length);
    if extent.None? {
      return Truncated;
    }
    return Created(Structure(kind, handle, offset, length, extent.value.length, extent.value.count));
  }

  // Scan

  /** How a scan ends: where the table says, where its bytes do, or with an error. */
  datatype Outcome = Complete | Cut | Failed

  datatype Scan = Scan(structures: seq<Structure>, outcome: Outcome)

  /** A limit of zero is no limit. */
  predicate IsReached(limit: nat, index: nat) {
    limit != 0 && index >= limit
  }

  function ScanFrom(table: seq<Byte>, offset: nat, index: nat, limit: nat, strict: bool): Scan
    decreases |table| - offset
  {
    if IsReached(limit, index) then Scan([], Complete)
    else
      var r := CreateAt(table, offset);
      if r.Truncated? then Scan([], Cut)
      else if r.BadLength? then Scan([], if strict then Failed else Cut)
      else if r.structure.kind == END_OF_TABLE then Scan([r.structure], Complete)
      else
        var rest := ScanFrom(table, r.structure.End(), index + 1, limit, strict);
        Scan([r.structure] + rest.structures, rest.outcome)
  }

  /** Structures stand one after another from an offset on, and the last one ends at another. */
  predicate Tiles(structures: seq<Structure>, from: nat, to: nat) {
    if structures == [] then from == to
    else structures[0].offset == from && structures[0].End() <= to && Tiles(structures[1..], structures[0].End(), to)
  }

  function EndOf(structures: seq<Structure>, from: nat): nat {
    if structures == [] then from else structures[|structures| - 1].End()
  }

  /** The structures found tile the beginning of the table. */
  lemma {:induction false} ScanTiles(table: seq<Byte>, offset: nat, index: nat, limit: nat, strict: bool)
    requires offset <= |table|
    ensures var found := ScanFrom(table, offset, index, limit, strict).structures;
      Tiles(found, offset, EndOf(found, offset)) && offset <= EndOf(found, offset) <= |table|
    decreases |table| - offset
  {
    hide CreateAt, IsReached;
    var r := CreateAt(table, offset);
    if !IsReached(limit, index) && r.Created? {
      var end := r.structure.End();
      if r.structure.kind == END_OF_TABLE {
        assert [r.structure] == [r.structure] + [];
        TilesFirst(r.structure, [], end);
      } else {
        ScanTiles(table, end, index + 1, limit, strict);
        var rest := ScanFrom(table, end, index + 1, limit, strict).structures;
        TilesFirst(r.structure, rest, EndOf(rest, end));
      }
    }
  }

  lemma TilesFirst(first: Structure, rest: seq<Structure>, to: nat)
    requires Tiles(rest, first.End(), to) && first.End() <= to && to == EndOf(rest, first.End())
    ensures Tiles([first] + rest, first.offset, to) && to == EndOf([first] + rest, first.offset)
  {
    assert ([first] + rest)[1..] == rest;
  }

  /** Every structure found is created where it stands, and is at least as long as a header and an empty set. */
  lemma {:induction false} ScanFound(table: seq<Byte>, offset: nat, index: nat, limit: nat, strict: bool, k: nat)
    requires k < |ScanFrom(table, offset, index, limit, strict).structures|
    ensures var s := ScanFrom(table, offset, index, limit, strict).structures[k];
      CreateAt(table, s.offset) == Created(s) && s.body + s.extra >= 6
    decreases |table| - offset
  {
    hide CreateAt, IsReached;
    if k > 0 {
      ScanFound(table, CreateAt(table, offset).structure.End(), index + 1, limit, strict, k - 1);
    }
  }

  /** Nothing is found after an end of the table. */
  lemma {:induction false} NothingPastEnd(table: seq<Byte>, offset: nat, index: nat, limit: nat, strict: bool, k: nat)
    requires k + 1 < |ScanFrom(table, offset, index, limit, strict).structures|
    ensures ScanFrom(table, offset, index, limit, strict).structures[k].kind != END_OF_TABLE
    decreases |table| - offset
  {
    hide CreateAt, IsReached;
    if k > 0 {
      NothingPastEnd(table, CreateAt(table, offset).structure.End(), index + 1, limit, strict, k - 1);
    }
  }

  /** Nothing is found past the limit. */
  lemma {:induction false} NothingPastLimit(table: seq<Byte>, offset: nat, index: nat, limit: nat, strict: bool)
    requires limit != 0 && index <= limit
    ensures index + |ScanFrom(table, offset, index, limit, strict).structures| <= limit
    decreases |table| - offset
  {
    hide CreateAt;
    var r := CreateAt(table, offset);
    if index < limit && r.Created? && r.structure.kind != END_OF_TABLE {
      NothingPastLimit(table, r.structure.End(), index + 1, limit, strict);
    }
  }

  /** A scan is complete at its limit or an end of the table, and is cut or fails exactly where no structure stands. */
  lemma {:induction false} OutcomeTells(table: seq<Byte>, offset: nat, index: nat, limit: nat, strict: bool)
    ensures var scan := ScanFrom(table, offset, index, limit, strict);
      var found := scan.structures;
      var end := EndOf(found, offset);
      && (scan.outcome.Complete? <==>
            IsReached(limit, index + |found|) || (found != [] && found[|found| - 1].kind == END_OF_TABLE))
      && (scan.outcome.Failed? ==> strict && CreateAt(table, end).BadLength?)
      && (scan.outcome.Cut? ==> CreateAt(table, end).Truncated? || (!strict && CreateAt(table, end).BadLength?))
    decreases |table| - offset
  {
    hide CreateAt, IsReached;
    var r := CreateAt(table, offset);
    if !IsReached(limit, index) && r.Created? && r.structure.kind != END_OF_TABLE {
      var rest := ScanFrom(table, r.structure.End(), index + 1, limit, strict).structures;
      var found := [r.structure] + rest;
      OutcomeTells(table, r.structure.End(), index + 1, limit, strict);
      assert rest != [] ==> found[|found| - 1] == rest[|rest| - 1];
      assert index + |found| == index + 1 + |rest|;
      if rest == [] {
        NotReachedBefore(limit, index);
      }
    }
  }

  lemma NotReachedBefore(limit: nat, index: nat)
    requires !IsReached(limit, index)
    ensures IsReached(limit, index + 1) ==> limit == index + 1
  {
  }

  lemma {:induction false} TilesEnd(structures: seq<Structure>, from: nat, to: nat)
    requires Tiles(structures, from, to)
    ensures from <= to
  {
    if structures != [] {
      TilesEnd(structures[1..], structures[0].End(), to);
    }
  }

  /** Tiles neither overlap nor leave a gap: every byte of the prefix is in one structure, and in one only. */
  lemma {:induction false} TilesPartition(structures: seq<Structure>, from: nat, to: nat, p: nat)
    requires Tiles(structures, from, to) && from <= p < to
    ensures exists k :: 0 <= k < |structures| && structures[k].offset <= p < structures[k].End()
    ensures forall k, l | 0 <= k < l < |structures| :: structures[k].End() <= structures[l].offset
  {
    TilesInOrder(structures, from, to);
    var rest := structures[1..];
    if p < structures[0].End() {
      assert structures[0].offset <= p;
    } else {
      TilesPartition(rest, structures[0].End(), to, p);
      var k :| 0 <= k < |rest| && rest[k].offset <= p < rest[k].End();
      assert structures[k + 1] == rest[k];
    }
  }

  lemma {:induction false} TilesInOrder(structures: seq<Structure>, from: nat, to: nat)
    requires Tiles(structures, from, to)
    ensures forall k | 0 <= k < |structures| :: from <= structures[k].offset && structures[k].End() <= to
    ensures forall k, l | 0 <= k < l < |structures| :: structures[k].End() <= structures[l].offset
  {
    if structures != [] {
      var rest := structures[1..];
      TilesInOrder(rest, structures[0].End(), to);
      assert forall k | 1 <= k < |structures| :: structures[k] == rest[k - 1];
    }
  }

  // Printed tables

  /** What a table is rebuilt from: the formatted areas and the strings of its structures. */
  datatype Source = Source(formatted: seq<Byte>, strings: seq<seq<Byte>>)

  /** The header tells the length of the formatted area. */
  predicate IsPrintable(s: Source) {
    HEADER_SIZE <= |s.formatted| && s.formatted[1] == |s.formatted| && AreTexts(s.strings)
  }

  predicate ArePrintable(sources: seq<Source>) {
    && (forall k | 0 <= k < |sources| :: IsPrintable(sources[k]))
    && (forall k | 0 <= k < |sources| - 1 :: sources[k].formatted[0] != END_OF_TABLE)
  }

  function PrintTable(sources: seq<Source>): seq<Byte> {
    if sources == [] then [] else Encode(sources[0].formatted, sources[0].strings) + PrintTable(sources[1..])
  }

  /** The structure a source is printed as, at an offset. */
  function Shape(s: Source, offset: nat): Structure
    requires IsPrintable(s)
  {
    Structure(s.formatted[0], HandleOf(s.formatted[2], s.formatted[3]), offset, |s.formatted|,
              |PrintSet(s.strings)|, |s.strings|)
  }

  function Printed(sources: seq<Source>, offset: nat): seq<Structure>
    requires forall k | 0 <= k < |sources| :: IsPrintable(sources[k])
  {
    if sources == [] then []
    else
      var first := Shape(sources[0], offset);
      [first] + Printed(sources[1..], first.End())
  }

  lemma PrintedIsCreated(before: seq<Byte>, s: Source, after: seq<Byte>)
    requires IsPrintable(s)
    ensures CreateAt(before + Encode(s.formatted, s.strings) + after, |before|)
         == Created(Shape(s, |before|))
  {
    var table := before + Encode(s.formatted, s.strings) + after;
    assert table == Encode(before + s.formatted, s.strings) + after;
    PrintedIsScanned(before + s.formatted, s.strings, after);
    assert forall k | 0 <= k < |s.formatted| :: table[|before| + k] == s.formatted[k];
    assert |PrintSet(s.strings)| >= 2;
  }

  lemma NothingAtEnd(table: seq<Byte>)
    ensures CreateAt(table, |table|).Truncated?
  {
  }

  /** Scanning a table undoes printing it: the structures are the printed ones. */
  lemma {:induction false} PrintedTableIsScanned(before: seq<Byte>, sources: seq<Source>, index: nat, limit: nat,
                                                 strict: bool)
    requires ArePrintable(sources) && (limit == 0 || index + |sources| <= limit)
    ensures var scan := ScanFrom(before + PrintTable(sources), |before|, index, limit, strict);
      && scan.structures == Printed(sources, |before|)
      && (scan.outcome.Complete? <==>
            IsReached(limit, index + |sources|)
            || (sources != [] && sources[|sources| - 1].formatted[0] == END_OF_TABLE))
      && !scan.outcome.Failed?
    decreases |sources|
  {
    hide CreateAt, PrintSet;
    var table := before + PrintTable(sources);
    if sources == [] {
      NothingAtEnd(table);
      assert |before| == |table|;
    }
    if sources != [] {
      var s, rest := sources[0], sources[1..];
      var image := Encode(s.formatted, s.strings);
      PrintedIsCreated(before, s, PrintTable(rest));
      assert table == before + image + PrintTable(rest);
      assert forall k | 0 <= k < |rest| :: rest[k] == sources[k + 1];
      if s.formatted[0] == END_OF_TABLE {
        assert |sources| == 1;
      } else {
        PrintedTableIsScanned(before + image, rest, index + 1, limit, strict);
        assert table == before + image + PrintTable(rest);
        assert rest != [] ==> rest[|rest| - 1] == sources[|sources| - 1];
      }
    }
  }

  // Layout

  /** Two tables have the same header of a structure, and the same zeros in its string set. */
  predicate IsKept(a: seq<Byte>, b: seq<Byte>, s: Structure)
    requires |a| == |b|
  {
    && (forall p | s.offset <= p < s.offset + HEADER_SIZE && p < |a| :: a[p] == b[p])
    && (forall p | s.StringsAt() <= p < s.End() && p < |a| :: a[p] == 0 <==> b[p] == 0)
  }

  /** All the structures are kept, and so are the bytes after them. */
  predicate SameLayout(a: seq<Byte>, b: seq<Byte>, structures: seq<Structure>, from: nat)
    requires |a| == |b|
  {
    && (forall k | 0 <= k < |structures| :: IsKept(a, b, structures[k]))
    && (forall p | EndOf(structures, from) <= p < |a| :: a[p] == b[p])
  }

  /** Where a set ends and how many strings it has depends on its zeros only. */
  lemma {:induction false} EndIsSame(a: seq<Byte>, b: seq<Byte>, p: nat, stop: nat)
    requires |a| == |b| && p <= stop <= |a| && forall q | p <= q < stop :: a[q] == 0 <==> b[q] == 0
    requires stop == |a| || (FindEnd(a, p).Some? && FindEnd(a, p).value + 2 <= stop)
    ensures FindEnd(a, p) == FindEnd(b, p)
    decreases |a| - p
  {
    if p + 1 < |a| && !IsEnd(a, p) {
      EndIsSame(a, b, p + 1, stop);
    }
  }

  lemma {:induction false} ZeroesAreSame(a: seq<Byte>, b: seq<Byte>, p: nat, q: nat)
    requires p <= q <= |a| == |b| && forall k | p <= k < q :: a[k] == 0 <==> b[k] == 0
    ensures Zeroes(a, p, q) == Zeroes(b, p, q)
    decreases q
  {
    if p < q {
      ZeroesAreSame(a, b, p, q - 1);
    }
  }

  lemma SetIsSame(a: seq<Byte>, b: seq<Byte>, start: nat, stop: nat)
    requires |a| == |b| && start <= stop <= |a| && forall q | start <= q < stop :: a[q] == 0 <==> b[q] == 0
    requires stop == |a| || (ScanSet(a, start).Some? && start + ScanSet(a, start).value.length <= stop)
    ensures ScanSet(a, start) == ScanSet(b, start)
  {
    EndIsSame(a, b, start, stop);
    var end := FindEnd(a, start);
    if end.Some? {
      ZeroesAreSame(a, b, start, end.value);
    }
  }

  lemma SameIsCreated(a: seq<Byte>, b: seq<Byte>, offset: nat)
    requires |a| == |b| && forall p | offset <= p < |a| :: a[p] == b[p]
    ensures CreateAt(b, offset) == CreateAt(a, offset)
  {
    if offset + HEADER_SIZE + 2 <= |a| {
      assert a[offset] == b[offset] && a[offset + 1] == b[offset + 1]
          && a[offset + 2] == b[offset + 2] && a[offset + 3] == b[offset + 3];
      var start := offset + BodyAt(a, offset);
      if start <= |a| {
        SetIsSame(a, b, start, |a|);
      }
    }
  }

  /** Two tables have the same headers of structures, and the same bytes after the structures. */
  predicate AreHeadersKept(a: seq<Byte>, b: seq<Byte>, structures: seq<Structure>, from: nat)
    requires |a| == |b|
  {
    && (forall k, p | 0 <= k < |structures| && structures[k].offset <= p < structures[k].offset + HEADER_SIZE
      && p < |a| ::
          a[p] == b[p])
    && (forall p | EndOf(structures, from) <= p < |a| :: a[p] == b[p])
  }

  /** String sets scan to the same extents. */
  predicate AreSetsKept(a: seq<Byte>, b: seq<Byte>, structures: seq<Structure>) {
    forall k | 0 <= k < |structures| :: ScanSet(b, structures[k].StringsAt()) == ScanSet(a, structures[k].StringsAt())
  }

  lemma SetDecides(a: seq<Byte>, b: seq<Byte>, offset: nat)
    requires |a| == |b| && CreateAt(a, offset).Created?
    requires forall p | offset <= p < offset + HEADER_SIZE && p < |a| :: a[p] == b[p]
    ensures var start := CreateAt(a, offset).structure.StringsAt();
      CreateAt(b, offset) == CreateAt(a, offset) <==> ScanSet(b, start) == ScanSet(a, start)
  {
    assert a[offset] == b[offset] && a[offset + 1] == b[offset + 1]
        && a[offset + 2] == b[offset + 2] && a[offset + 3] == b[offset + 3];
  }

  lemma HeadersOfRest(a: seq<Byte>, b: seq<Byte>, first: Structure, rest: seq<Structure>, from: nat)
    requires |a| == |b| && AreHeadersKept(a, b, [first] + rest, from)
    ensures AreHeadersKept(a, b, rest, first.End())
    ensures forall p | first.offset <= p < first.offset + HEADER_SIZE && p < |a| :: a[p] == b[p]
  {
    var all := [first] + rest;
    assert all[0] == first && forall k | 0 <= k < |rest| :: rest[k] == all[k + 1];
    assert EndOf(rest, first.End()) == EndOf(all, from);
  }

  /**
   A table whose headers have been kept is cut into the same structures exactly
   when each of their string sets scans to the same extent.
   */
  lemma {:induction false} SetsDecideScan(a: seq<Byte>, b: seq<Byte>, offset: nat, index: nat, limit: nat, strict: bool)
    requires |a| == |b| && AreHeadersKept(a, b, ScanFrom(a, offset, index, limit, strict).structures, offset)
    ensures ScanFrom(b, offset, index, limit, strict) == ScanFrom(a, offset, index, limit, strict)
       <==> AreSetsKept(a, b, ScanFrom(a, offset, index, limit, strict).structures)
    decreases |a| - offset
  {
    hide CreateAt, AreHeadersKept, ScanSet;
    var r := CreateAt(a, offset);
    if !IsReached(limit, index) {
      if r.Created? {
        var first, end := r.structure, r.structure.End();
        if first.kind == END_OF_TABLE {
          assert [first] == [first] + [];
          HeadersOfRest(a, b, first, [], offset);
          SetsOfAll(a, b, first, []);
          SetDecides(a, b, offset);
        } else {
          var rest := ScanFrom(a, end, index + 1, limit, strict).structures;
          HeadersOfRest(a, b, first, rest, offset);
          SetDecides(a, b, offset);
          SetsDecideScan(a, b, end, index + 1, limit, strict);
          SetsOfAll(a, b, first, rest);
          if CreateAt(b, offset) != r {
            FirstDecides(a, b, offset, index, limit, strict);
          } else {
            OneByOne(first, rest, ScanFrom(b, end, index + 1, limit, strict).structures);
          }
        }
      } else {
        NothingFound(a, b, offset, index, limit, strict);
      }
    }
  }

  lemma FirstDecides(a: seq<Byte>, b: seq<Byte>, offset: nat, index: nat, limit: nat, strict: bool)
    requires !IsReached(limit, index) && CreateAt(a, offset).Created? && CreateAt(b, offset) != CreateAt(a, offset)
    ensures ScanFrom(b, offset, index, limit, strict) != ScanFrom(a, offset, index, limit, strict)
  {
    hide CreateAt;
    var found, other := ScanFrom(a, offset, index, limit, strict), ScanFrom(b, offset, index, limit, strict);
    assert found.structures[0] == CreateAt(a, offset).structure;
    assert CreateAt(b, offset).Created? ==> other.structures[0] == CreateAt(b, offset).structure;
  }

  lemma NothingFound(a: seq<Byte>, b: seq<Byte>, offset: nat, index: nat, limit: nat, strict: bool)
    requires |a| == |b| && AreHeadersKept(a, b, [], offset)
    ensures CreateAt(b, offset) == CreateAt(a, offset)
  {
    SameIsCreated(a, b, offset);
  }

  lemma SetsOfAll(a: seq<Byte>, b: seq<Byte>, first: Structure, rest: seq<Structure>)
    ensures AreSetsKept(a, b, [first] + rest)
       <==> AreSetsKept(a, b, rest) && ScanSet(b, first.StringsAt()) == ScanSet(a, first.StringsAt())
  {
    hide ScanSet;
    var all := [first] + rest;
    assert all[0] == first && forall k | 0 <= k < |rest| :: rest[k] == all[k + 1];
    assert forall k | 1 <= k < |all| :: all[k] == rest[k - 1];
  }

  lemma OneByOne<T>(first: T, a: seq<T>, b: seq<T>)
    ensures [first] + a == [first] + b <==> a == b
  {
    assert a == ([first] + a)[1..] && b == ([first] + b)[1..];
  }

  lemma SameLayoutHeaders(a: seq<Byte>, b: seq<Byte>, structures: seq<Structure>, from: nat)
    requires |a| == |b| && SameLayout(a, b, structures, from)
    ensures AreHeadersKept(a, b, structures, from)
  {
    forall k, p | 0 <= k < |structures| && structures[k].offset <= p < structures[k].offset + HEADER_SIZE && p < |a|
      ensures a[p] == b[p]
    {
      assert IsKept(a, b, structures[k]);
    }
  }

  lemma KeptSetIsSame(a: seq<Byte>, b: seq<Byte>, s: Structure)
    requires |a| == |b| && CreateAt(a, s.offset) == Created(s) && IsKept(a, b, s)
    ensures ScanSet(b, s.StringsAt()) == ScanSet(a, s.StringsAt())
  {
    hide FindEnd, Zeroes;
    SetIsSame(a, b, s.StringsAt(), s.End());
  }

  /** A table of the same layout is cut into the same structures, and its scan ends the same way. */
  lemma SameLayoutIsScanned(a: seq<Byte>, b: seq<Byte>, offset: nat, index: nat, limit: nat, strict: bool)
    requires |a| == |b| && SameLayout(a, b, ScanFrom(a, offset, index, limit, strict).structures, offset)
    ensures ScanFrom(b, offset, index, limit, strict) == ScanFrom(a, offset, index, limit, strict)
  {
    hide CreateAt, IsKept, ScanSet, ScanFrom;
    var found := ScanFrom(a, offset, index, limit, strict).structures;
    SameLayoutHeaders(a, b, found, offset);
    SetsDecideScan(a, b, offset, index, limit, strict);
    forall k | 0 <= k < |found|
      ensures ScanSet(b, found[k].StringsAt()) == ScanSet(a, found[k].StringsAt())
    {
      ScanFound(a, offset, index, limit, strict, k);
      KeptSetIsSame(a, b, found[k]);
    }
  }
}
