/**
 Anonymization of a table in place: private values are replaced where they are
 and wherever else they are found (libopendmi/src/anonymize.c).
 */
module Anonymization {
  import opened Wrappers
  import opened Bytes
  import opened StringSets
  import opened Tables
  import opened Schema
  import S = Structure
  import E = Encoding

  const SUBSTRING_MIN: nat := 4
  const PATTERN_MIN: nat := 6
  const SIZE_MAX: nat := 0xFFFF_FFFF_FFFF_FFFF

  // Replacements

  predicate IsDigit(c: nat) { 48 <= c <= 57 }

  predicate IsUpper(c: nat) { 65 <= c <= 90 }

  predicate IsLower(c: nat) { 97 <= c <= 122 }

  /** Letters and digits stand for ones of their own kind, and everything else for itself. */
  predicate IsOfKind(c: nat, d: nat) {
    if IsDigit(c) then IsDigit(d)
    else if IsUpper(c) then IsUpper(d)
    else if IsLower(c) then IsLower(d)
    else c == d
  }

  /** A replacement is zero exactly where its value is. */
  predicate KeepsZeros(a: seq<Byte>, b: seq<Byte>) {
    |a| == |b| && forall i | 0 <= i < |a| :: a[i] == 0 <==> b[i] == 0
  }

  /** The numbers drawn are words; letters and digits take the high half of one, and bytes its top byte. */
  function HighHalf(word: nat): nat {
    word / 0x1_0000_0000 % 0x1_0000_0000
  }

  function TopByte(word: nat): Byte {
    word / 0x100_0000_0000_0000 % 256
  }

  function Drawn(c: Byte, n: nat): (d: Byte)
    ensures IsOfKind(c, d)
  {
    if IsDigit(c) then 48 + n % 10
    else if IsUpper(c) then 65 + n % 26
    else if IsLower(c) then 97 + n % 26
    else c
  }

  function ReplacedText(data: seq<Byte>, draw: nat -> nat): (r: seq<Byte>)
    ensures |r| == |data| && forall i | 0 <= i < |data| :: IsOfKind(data[i], r[i])
    ensures KeepsZeros(data, r)
  {
    var r := seq<Byte>(|data|, i requires 0 <= i < |data| => Drawn(data[i], HighHalf(draw(i))));
    assert forall i | 0 <= i < |data| :: r[i] == Drawn(data[i], HighHalf(draw(i)));
    r
  }

  method ReplaceText(data: seq<Byte>, draw: nat -> nat, out: array<Byte>)
    requires out.Length == |data|
    modifies out
    ensures out[..] == ReplacedText(data, draw)
    ensures forall i | 0 <= i < |data| :: IsOfKind(data[i], out[i])
    ensures KeepsZeros(data, out[..])
  {
    for i := 0 to |data|
      invariant forall k | 0 <= k < i :: out[k] == Drawn(data[k], HighHalf(draw(k)))
    {
      var c, n := data[i], HighHalf(draw(i));
      if IsDigit(c) {
        out[i] := 48 + n % 10;
      } else if IsUpper(c) {
        out[i] := 65 + n % 26;
      } else if IsLower(c) {
        out[i] := 97 + n % 26;
      } else {
        out[i] := c;
      }
    }
    assert out[..] == ReplacedText(data, draw);
  }

  function ByteFor(byte: Byte, draw: nat -> nat, keep: nat, i: nat): Byte {
    if i < keep then byte else TopByte(draw(i - keep))
  }

  /** The first bytes may be kept; the others may become any, zeros included. */
  function BytesOf(data: seq<Byte>, draw: nat -> nat, keep: nat): (r: seq<Byte>)
    ensures |r| == |data|
  {
    seq<Byte>(|data|, i requires 0 <= i < |data| => ByteFor(data[i], draw, keep, i))
  }

  /** Bytes telling the manufacturer of a MAC address are kept, if there are others. */
  function KeptOf(length: nat, isMac: bool): nat {
    if isMac && 3 < length then 3 else 0
  }

  method ReplaceBytes(data: seq<Byte>, draw: nat -> nat, keep: nat, out: array<Byte>, at: nat)
    requires at + |data| <= out.Length
    modifies out
    ensures out[..] == Overwrite(old(out[..]), at, BytesOf(data, draw, keep))
  {
    hide TopByte;
    for i := 0 to |data|
      invariant out[..] == Overwrite(old(out[..]), at, BytesOf(data, draw, keep)[..i])
    {
      out[at + i] := if i < keep then data[i] else TopByte(draw(i - keep));
    }
    assert BytesOf(data, draw, keep)[..|data|] == BytesOf(data, draw, keep);
  }

  predicate IsBlank(data: seq<Byte>) {
    forall i | 0 < i < |data| :: data[i] == data[0]
  }

  /** Bytes which stand for no value. */
  predicate IsNoValue(data: seq<Byte>) {
    data == [] || IsBlank(data)
  }

  // Values

  /** A value to be replaced, and whether it is looked for everywhere. */
  datatype Value = Value(data: seq<Byte>, replacement: seq<Byte>, propagate: bool)

  predicate AreValues(values: seq<Value>) {
    forall k | 0 <= k < |values| ::
      0 < |values[k].data| == |values[k].replacement| < SIZE_MAX && !IsBlank(values[k].data)
  }

  /** Their replacements keep their zeros. */
  predicate AreSafe(values: seq<Value>) {
    forall k | 0 <= k < |values| :: KeepsZeros(values[k].data, values[k].replacement)
  }

  // Replacing everywhere

  predicate Occurs(source: seq<Byte>, data: seq<Byte>, q: nat) {
    q + |data| <= |source| && source[q..q + |data|] == data
  }

  function Overwrite(table: seq<Byte>, p: nat, bytes: seq<Byte>): (r: seq<Byte>)
    requires p + |bytes| <= |table|
    ensures |r| == |table|
    ensures forall i | 0 <= i < |table| :: r[i] == if p <= i < p + |bytes| then bytes[i - p] else table[i]
  {
    table[..p] + bytes + table[p + |bytes|..]
  }

  /** Every occurrence a search from left to right meets is written over. */
  function Stamp(source: seq<Byte>, table: seq<Byte>, v: Value, pos: nat, end: nat): (r: seq<Byte>)
    requires |table| == |source| && end <= |source| && 0 < |v.data| == |v.replacement|
    ensures |r| == |table|
    decreases |source| - pos
  {
    if pos + |v.data| > end then table
    else if Occurs(source, v.data, pos) then
      Stamp(source, Overwrite(table, pos, v.replacement), v, pos + |v.data|, end)
    else Stamp(source, table, v, pos + 1, end)
  }

  predicate IsDue(v: Value, length: nat) {
    v.propagate && |v.data| == length
  }

  /** All the values of one length, in the order they have been added. */
  function StampAll(source: seq<Byte>, table: seq<Byte>, values: seq<Value>, length: nat, start: nat, end: nat,
                    i: nat): (r: seq<Byte>)
    requires |table| == |source| && start <= end <= |source| && AreValues(values)
    ensures |r| == |table|
    decreases |values| - i
  {
    if i >= |values| then table
    else StampAll(source, if IsDue(values[i], length) then Stamp(source, table, values[i], start, end) else table,
                  values, length, start, end, i + 1)
  }

  /** The longest of the values which are shorter than a length. */
  function Longest(values: seq<Value>, previous: nat): (length: nat)
    ensures length != 0 ==> length < previous && exists k :: 0 <= k < |values| && |values[k].data| == length
    ensures forall k | 0 <= k < |values| && |values[k].data| < previous :: |values[k].data| <= length
  {
    if values == [] then 0
    else
      var n := |values|;
      var rest, last := Longest(values[..n - 1], previous), |values[n - 1].data|;
      assert forall k | 0 <= k < n - 1 :: values[..n - 1][k] == values[k];
      assert last < previous && last != 0 ==> exists k :: 0 <= k < |values| && |values[k].data| == last;
      if last < previous && last > rest then last else rest
  }

  /** Longer values come first. */
  function Replaced(source: seq<Byte>, table: seq<Byte>, values: seq<Value>, previous: nat, start: nat, end: nat,
                    minimum: nat): (r: seq<Byte>)
    requires |table| == |source| && start <= end <= |source| && AreValues(values)
    ensures |r| == |table|
    decreases previous
  {
    var length := Longest(values, previous);
    if length == 0 || length < minimum then table
    else Replaced(source, StampAll(source, table, values, length, start, end, 0), values, length, start, end, minimum)
  }

  /** A range of a table: what is looked for in it, and how short that may be. */
  datatype Search = Search(source: seq<Byte>, values: seq<Value>, start: nat, end: nat, minimum: nat) {
    /** A byte of a replacement, standing where the value has been found in the source. */
    ghost predicate Stands(byte: Byte, p: nat) {
      exists k: nat, q: nat :: IsFrom(byte, p, k, q)
    }

    predicate IsFrom(byte: Byte, p: nat, k: nat, q: nat) {
      && k < |values| && values[k].propagate && minimum <= |values[k].data| == |values[k].replacement|
      && start <= q <= p < q + |values[k].data| <= end
      && Occurs(source, values[k].data, q) && byte == values[k].replacement[p - q]
    }

    /** Bytes change to bytes of replacements only. */
    ghost predicate Changes(a: seq<Byte>, b: seq<Byte>) {
      |a| == |b| && forall p | 0 <= p < |a| :: a[p] == b[p] || Stands(b[p], p)
    }

    /** All the bytes from a position on, as many as there are of a value, stand for values. */
    ghost predicate IsStamped(table: seq<Byte>, o: nat, n: nat) {
      o + n <= |table| && forall p | o <= p < o + n :: Stands(table[p], p)
    }

    /**
     Every occurrence of a value from a position on is written over from its
     first byte to its last, or begins in another one of the value which is.
     */
    ghost predicate Covers(table: seq<Byte>, k: nat, from: nat)
      requires k < |values|
    {
      forall q: nat | from <= q && q + |values[k].data| <= end && Occurs(source, values[k].data, q) ::
        IsCovered(table, k, from, q)
    }

    ghost predicate IsCovered(table: seq<Byte>, k: nat, from: nat, q: nat)
      requires k < |values|
    {
      exists o: nat :: IsCoveredBy(table, k, from, q, o)
    }

    ghost predicate IsCoveredBy(table: seq<Byte>, k: nat, from: nat, q: nat, o: nat)
      requires k < |values|
    {
      && from <= o <= q < o + |values[k].data| <= end && Occurs(source, values[k].data, o)
      && IsStamped(table, o, |values[k].data|)
    }

    /** The occurrence which covers one. */
    lemma CoveredBy(table: seq<Byte>, k: nat, from: nat, q: nat) returns (o: nat)
      requires k < |values| && Covers(table, k, from) && from <= q && q + |values[k].data| <= end
      requires Occurs(source, values[k].data, q)
      ensures from <= o <= q < o + |values[k].data| <= end && Occurs(source, values[k].data, o)
      ensures o + |values[k].data| <= |source|
      ensures forall p | o <= p < o + |values[k].data| :: p < |table| && Stands(table[p], p)
    {
      hide Stands;
      assert IsCovered(table, k, from, q);
      o :| IsCoveredBy(table, k, from, q, o);
    }

    lemma ChangesAgain(a: seq<Byte>, b: seq<Byte>, c: seq<Byte>)
      requires Changes(a, b) && Changes(b, c)
      ensures Changes(a, c)
    {
    }

    lemma StillStamped(a: seq<Byte>, b: seq<Byte>, o: nat, n: nat)
      requires IsStamped(a, o, n) && Changes(a, b)
      ensures IsStamped(b, o, n)
    {
      hide Stands;
      forall p | o <= p < o + n
        ensures Stands(b[p], p)
      {
        assert Stands(a[p], p);
      }
    }

    lemma StillCovers(a: seq<Byte>, b: seq<Byte>, k: nat, from: nat)
      requires k < |values| && Changes(a, b) && Covers(a, k, from)
      ensures Covers(b, k, from)
    {
      hide Changes, IsStamped;
      forall q: nat | from <= q && q + |values[k].data| <= end && Occurs(source, values[k].data, q)
        ensures IsCovered(b, k, from, q)
      {
        assert IsCovered(a, k, from, q);
        var o: nat :| IsCoveredBy(a, k, from, q, o);
        StillStamped(a, b, o, |values[k].data|);
        assert IsCoveredBy(b, k, from, q, o);
      }
    }

    /** One value: its occurrences are written over, and nothing else is. */
    lemma {:induction false} StampCovers(table: seq<Byte>, k: nat, pos: nat)
      requires |table| == |source| && start <= pos && end <= |source| && k < |values|
      requires values[k].propagate && 0 < |values[k].data| == |values[k].replacement| && minimum <= |values[k].data|
      ensures Changes(table, Stamp(source, table, values[k], pos, end))
      ensures Covers(Stamp(source, table, values[k], pos, end), k, pos)
      decreases |source| - pos
    {
      hide Stands;
      var v := values[k];
      var n := |v.data|;
      var r := Stamp(source, table, v, pos, end);
      if pos + n <= end {
        if Occurs(source, v.data, pos) {
          var next := Overwrite(table, pos, v.replacement);
          forall p | pos <= p < pos + n
            ensures Stands(next[p], p)
          {
            StandsHere(next[p], p, k, pos);
          }
          StampCovers(next, k, pos + n);
          assert Changes(table, next);
          ChangesAgain(table, next, r);
          StillStamped(next, r, pos, n);
          CoversFrom(r, k, pos);
        } else {
          StampCovers(table, k, pos + 1);
          CoversAfter(r, k, pos);
        }
      }
    }

    /** An occurrence which is written over covers the ones which begin in it. */
    lemma CoversFrom(table: seq<Byte>, k: nat, pos: nat)
      requires k < |values| && 0 < |values[k].data| && pos + |values[k].data| <= end
      requires Occurs(source, values[k].data, pos) && IsStamped(table, pos, |values[k].data|)
      requires Covers(table, k, pos + |values[k].data|)
      ensures Covers(table, k, pos)
    {
      hide IsStamped, Occurs;
      var n := |values[k].data|;
      forall q: nat | pos <= q && q + n <= end && Occurs(source, values[k].data, q)
        ensures IsCovered(table, k, pos, q)
      {
        if q < pos + n {
          assert IsCoveredBy(table, k, pos, q, pos);
        } else {
          assert IsCovered(table, k, pos + n, q);
          var o: nat :| IsCoveredBy(table, k, pos + n, q, o);
          assert IsCoveredBy(table, k, pos, q, o);
        }
      }
    }

    lemma CoversAfter(table: seq<Byte>, k: nat, pos: nat)
      requires k < |values| && !Occurs(source, values[k].data, pos) && Covers(table, k, pos + 1)
      ensures Covers(table, k, pos)
    {
      hide IsStamped;
      var n := |values[k].data|;
      forall q: nat | pos <= q && q + n <= end && Occurs(source, values[k].data, q)
        ensures IsCovered(table, k, pos, q)
      {
        assert IsCovered(table, k, pos + 1, q);
        var o: nat :| IsCoveredBy(table, k, pos + 1, q, o);
        assert IsCoveredBy(table, k, pos, q, o);
      }
    }

    lemma StandsHere(byte: Byte, p: nat, k: nat, q: nat)
      requires IsFrom(byte, p, k, q)
      ensures Stands(byte, p)
    {
    }

    /** One length. */
    lemma {:induction false} AllCover(table: seq<Byte>, length: nat, i: nat)
      requires |table| == |source| && start <= end <= |source| && AreValues(values) && minimum <= length
      ensures var r := StampAll(source, table, values, length, start, end, i);
        && Changes(table, r)
        && forall k | i <= k < |values| && IsDue(values[k], length) :: Covers(r, k, start)
      decreases |values| - i
    {
      hide Stands, Covers, Changes, Stamp;
      if i < |values| {
        var next := if IsDue(values[i], length) then Stamp(source, table, values[i], start, end) else table;
        if IsDue(values[i], length) {
          StampCovers(table, i, start);
        } else {
          NoChange(table);
        }
        AllCover(next, length, i + 1);
        var r := StampAll(source, next, values, length, start, end, i + 1);
        ChangesAgain(table, next, r);
        if IsDue(values[i], length) {
          StillCovers(next, r, i, start);
        }
      } else {
        NoChange(table);
      }
    }

    lemma NoChange(table: seq<Byte>)
      ensures Changes(table, table)
    {
    }

    /**
     All the lengths: bytes change to bytes of replacements only, and every
     occurrence of a value which is long enough is written over.
     */
    lemma {:induction false} NothingIsLeft(table: seq<Byte>, previous: nat)
      requires |table| == |source| && start <= end <= |source| && AreValues(values)
      ensures var r := Replaced(source, table, values, previous, start, end, minimum);
        && Changes(table, r)
        && forall k | 0 <= k < |values| && values[k].propagate && minimum <= |values[k].data| < previous ::
          Covers(r, k, start)
      decreases previous
    {
      hide Stands, Covers, Changes, StampAll;
      var length := Longest(values, previous);
      if length == 0 || length < minimum {
        NoChange(table);
      } else {
        var next := StampAll(source, table, values, length, start, end, 0);
        AllCover(table, length, 0);
        NothingIsLeft(next, length);
        var r := Replaced(source, next, values, length, start, end, minimum);
        ChangesAgain(table, next, r);
        forall k | 0 <= k < |values| && values[k].propagate && |values[k].data| == length
          ensures Covers(r, k, start)
        {
          StillCovers(next, r, k, start);
        }
      }
    }

    /** Safe values keep the zeros, and nothing outside of the range is touched. */
    lemma ZeroIsKept(a: seq<Byte>, b: seq<Byte>, p: nat)
      requires Changes(a, b) && p < |a| == |source| && AreSafe(values)
      requires source[p] == 0 <==> a[p] == 0
      ensures source[p] == 0 <==> b[p] == 0
    {
      if a[p] != b[p] {
        var k: nat, q: nat :| IsFrom(b[p], p, k, q);
        assert source[q..q + |values[k].data|][p - q] == source[p];
      }
    }

    lemma OutsideIsKept(a: seq<Byte>, b: seq<Byte>)
      requires Changes(a, b)
      ensures forall p | 0 <= p < |a| && !(start <= p < end) :: a[p] == b[p]
    {
    }

    lemma StillCoversRange(a: seq<Byte>, b: seq<Byte>, k: nat)
      requires k < |values| && |a| == |b| && Covers(a, k, start)
      requires forall p | start <= p < end && p < |a| :: a[p] == b[p]
      ensures Covers(b, k, start)
    {
      hide Stands, Occurs;
      forall q: nat | start <= q && q + |values[k].data| <= end && Occurs(source, values[k].data, q)
        ensures IsCovered(b, k, start, q)
      {
        assert IsCovered(a, k, start, q);
        var o: nat :| IsCoveredBy(a, k, start, q, o);
        assert IsCoveredBy(b, k, start, q, o);
      }
    }

    /** A byte a search has in its range stays, or stands for a value. */
    lemma SearchedAt(table: seq<Byte>, p: nat)
      requires |table| == |source| && start <= end <= |source| && AreValues(values) && p < |table|
      ensures var r := Replaced(source, table, values, SIZE_MAX, start, end, minimum);
        r[p] == table[p] || (start <= p < end && Stands(r[p], p))
    {
      hide Stands, Covers, Replaced;
      NothingIsLeft(table, SIZE_MAX);
      OutsideIsKept(table, Replaced(source, table, values, SIZE_MAX, start, end, minimum));
    }
  }

  /** A value of no zeros, as a structure holds it: its body has it, and so has its only string. */
  const HELD: seq<Byte> := [1, 8, 0, 0, 65, 66, 67, 68, 65, 66, 67, 68, 0, 0, 127, 4, 1, 0, 0, 0]

  /** The value of the body, collected with the bytes drawn for it, some of which are zeros. */
  function HeldValue(draw: nat -> nat): Value {
    Value(HELD[4..8], BytesOf(HELD[4..8], draw, 0), true)
  }

  /**
   A binary value of no zeros may get a replacement which has them, and is
   written over in the body: where a string of the table holds the value too,
   its set then ends early.
   */
  lemma UnsafeLosesLayout(draw: nat -> nat)
    requires TopByte(draw(0)) != 0 && TopByte(draw(1)) == 0 && TopByte(draw(2)) == 0
    ensures AreValues([HeldValue(draw)]) && !AreSafe([HeldValue(draw)])
    ensures CreateAt(HELD, 0) == Created(Structure(1, 0, 0, 8, 6, 1))
    ensures var v := HeldValue(draw);
      var table := Replaced(HELD, Overwrite(HELD, 4, v.replacement), [v], SIZE_MAX, 8, 12, SUBSTRING_MIN);
      CreateAt(table, 0).Created? && CreateAt(table, 0).structure.End() == 11
  {
    hide Stamp, CreateAt, IsBlank;
    var v := HeldValue(draw);
    HeldIsUnsafe(draw);
    HeldIsStamped(v, Overwrite(HELD, 4, v.replacement));
    HeldIsCreated();
    var table := Overwrite(Overwrite(HELD, 4, v.replacement), 8, v.replacement);
    StampedIsCreated(table);
  }

  lemma HeldIsUnsafe(draw: nat -> nat)
    requires TopByte(draw(0)) != 0 && TopByte(draw(1)) == 0 && TopByte(draw(2)) == 0
    ensures AreValues([HeldValue(draw)]) && !AreSafe([HeldValue(draw)])
    ensures var r := HeldValue(draw).replacement; r[0] != 0 && r[1] == 0 && r[2] == 0
  {
    var v := HeldValue(draw);
    assert v.data[1] != v.data[0] && v.data[1] != 0 && v.replacement[1] == 0;
    assert [v][0] == v;
  }

  lemma HeldIsStamped(v: Value, before: seq<Byte>)
    requires v.data == HELD[4..8] && |v.replacement| == 4 && v.propagate && AreValues([v]) && |before| == |HELD|
    ensures Replaced(HELD, before, [v], SIZE_MAX, 8, 12, SUBSTRING_MIN) == Overwrite(before, 8, v.replacement)
  {
    hide Stamp, Longest;
    var table := Overwrite(before, 8, v.replacement);
    HeldOnce(v, before);
    OneIsLongest(v);
    assert StampAll(HELD, before, [v], 4, 8, 12, 0) == StampAll(HELD, table, [v], 4, 8, 12, 1) == table;
    assert Replaced(HELD, table, [v], 4, 8, 12, SUBSTRING_MIN) == table;
  }

  lemma HeldOnce(v: Value, before: seq<Byte>)
    requires v.data == HELD[4..8] && |v.replacement| == 4 && |before| == |HELD|
    ensures Stamp(HELD, before, v, 8, 12) == Overwrite(before, 8, v.replacement)
  {
    hide Overwrite;
    assert HELD[8..12] == v.data && Occurs(HELD, v.data, 8);
    var table := Overwrite(before, 8, v.replacement);
    assert Stamp(HELD, table, v, 12, 12) == table;
  }

  lemma OneIsLongest(v: Value)
    requires |v.data| == 4
    ensures Longest([v], SIZE_MAX) == 4 && Longest([v], 4) == 0
  {
    assert [v][..0] == [] && Longest([], SIZE_MAX) == 0 && Longest([], 4) == 0;
  }

  lemma HeldIsCreated()
    ensures CreateAt(HELD, 0) == Created(Structure(1, 0, 0, 8, 6, 1))
  {
    hide ScanSet;
    HeldIsScanned();
    assert HELD[..4] == [1, 8, 0, 0];
    assert HELD[0] == HELD[..4][0] && HELD[1] == HELD[..4][1] && HELD[2] == HELD[..4][2] && HELD[3] == HELD[..4][3];
  }

  lemma HeldIsScanned()
    ensures ScanSet(HELD, 8) == Some(Extent(6, 1))
  {
    hide FindEnd, Zeroes;
    FirstEnd(HELD, 8, 12);
    NoZeroes(HELD, 8, 12);
  }

  lemma StampedIsCreated(table: seq<Byte>)
    requires |table| == |HELD| && table[..4] == HELD[..4] && table[8] != 0 && table[9] == 0 && table[10] == 0
    ensures CreateAt(table, 0).Created? && CreateAt(table, 0).structure.End() == 11
  {
    assert forall p | 0 <= p < 4 :: table[p] == table[..4][p] == HELD[p];
    FirstEnd(table, 8, 9);
  }

  // Values which are looked for

  function Added(values: seq<Value>, v: Value): seq<Value> {
    if values == [] then [v]
    else if values[0].data == v.data then [values[0].(propagate := values[0].propagate || v.propagate)] + values[1..]
    else [values[0]] + Added(values[1..], v)
  }

  lemma {:induction false} AddedIsSafe(values: seq<Value>, v: Value)
    requires AreValues(values) && AreSafe(values) && KeepsZeros(v.data, v.replacement)
    ensures AreSafe(Added(values, v))
  {
    if values != [] && values[0].data != v.data {
      var rest := values[1..];
      assert forall k | 0 <= k < |rest| :: rest[k] == values[k + 1];
      AddedIsSafe(rest, v);
      var added := Added(values, v);
      assert forall k | 1 <= k < |added| :: added[k] == Added(rest, v)[k - 1];
    }
  }

  lemma {:induction false} AddedAreValues(values: seq<Value>, v: Value)
    requires AreValues(values) && AreValues([v])
    ensures AreValues(Added(values, v))
  {
    hide IsBlank;
    assert [v][0] == v;
    if values != [] && values[0].data != v.data {
      var rest := values[1..];
      assert forall k | 0 <= k < |rest| :: rest[k] == values[k + 1];
      AddedAreValues(rest, v);
      var added := Added(values, v);
      assert forall k | 1 <= k < |added| :: added[k] == Added(rest, v)[k - 1];
    }
  }

  lemma {:induction false} AddedFound(values: seq<Value>, v: Value, i: nat)
    requires i < |values| && values[i].data == v.data && forall k | 0 <= k < i :: values[k].data != v.data
    ensures Added(values, v) == values[i := values[i].(propagate := values[i].propagate || v.propagate)]
  {
    if i > 0 {
      AddedFound(values[1..], v, i - 1);
    }
  }

  lemma {:induction false} AddedLast(values: seq<Value>, v: Value)
    requires forall k | 0 <= k < |values| :: values[k].data != v.data
    ensures Added(values, v) == values + [v]
  {
    if values != [] {
      AddedLast(values[1..], v);
    }
  }

  function SetOf(text: seq<Byte>): set<Byte> {
    set c | c in text
  }

  lemma SubsetIsSmaller(a: set<Byte>, b: set<Byte>)
    requires a <= b
    ensures |a| <= |b|
  {
    assert b == a + (b - a);
  }

  /** A single word, with a digit, of at least three different characters. */
  predicate IsIdentity(text: seq<Byte>) {
    (forall c | c in text :: !IsSpace(c)) && (exists c :: c in text && IsDigit(c)) && |SetOf(text)| >= 3
  }

  method IsIdentifier(text: seq<Byte>) returns (r: bool)
    ensures r <==> IsIdentity(text)
  {
    var hasDigit, seen := false, [];
    for i := 0 to |text|
      invariant hasDigit <==> exists c :: c in text[..i] && IsDigit(c)
      invariant forall c | c in text[..i] :: !IsSpace(c)
      invariant |SetOf(seen)| == |seen| <= 3 && SetOf(seen) <= SetOf(text[..i])
      invariant |seen| < 3 ==> SetOf(seen) == SetOf(text[..i])
    {
      var c := text[i];
      assert text[..i + 1] == text[..i] + [c];
      if IsSpace(c) {
        return false;
      }
      hasDigit := hasDigit || IsDigit(c);
      if |seen| < 3 && c !in seen {
        assert SetOf(seen + [c]) == SetOf(seen) + {c};
        seen := seen + [c];
      }
    }
    assert text[..|text|] == text;
    SubsetIsSmaller(SetOf(seen), SetOf(text));
    return hasDigit && |seen| >= 3;
  }

  /** Where a body had some bytes which the table has others for now. */
  function FindChanged(source: seq<Byte>, s: Structure, now: seq<Byte>, data: seq<Byte>, p: nat): (r: Option<nat>)
    requires |now| == |source| && s.offset <= p && s.StringsAt() <= |source|
    ensures r.Some? ==>
      && p <= r.value && r.value + |data| <= s.StringsAt()
      && Occurs(source, data, r.value) && !Occurs(now, data, r.value)
    ensures r.None? ==>
      forall q | p <= q && q + |data| <= s.StringsAt() && q < |source| && Occurs(source, data, q) ::
        Occurs(now, data, q)
    decreases |source| - p
  {
    if p + |data| > s.StringsAt() || p >= |source| then None
    else if Occurs(source, data, p) && !Occurs(now, data, p) then Some(p)
    else FindChanged(source, s, now, data, p + 1)
  }

  function AlsoCollected(source: seq<Byte>, s: Structure, now: seq<Byte>, data: seq<Byte>,
                         before: seq<Value>): seq<Value>
    requires |now| == |source| && s.StringsAt() <= |source|
  {
    var found := if |data| >= PATTERN_MIN then FindChanged(source, s, now, data, s.offset) else None;
    if found.None? || IsBlank(data) then before
    else Added(before, Value(data, now[found.value..found.value + |data|], true))
  }

  /** Values a structure has been written with, added one after another. */
  function Collected(source: seq<Byte>, s: Structure, now: seq<Byte>, saved: seq<seq<Byte>>,
                     before: seq<Value>): seq<Value>
    requires |now| == |source| && s.StringsAt() <= |source|
  {
    if saved == [] then before
    else
      var n := |saved| - 1;
      AlsoCollected(source, s, now, saved[n], Collected(source, s, now, saved[..n], before))
  }

  lemma CollectedNext(source: seq<Byte>, s: Structure, now: seq<Byte>, saved: seq<seq<Byte>>, i: nat,
                      before: seq<Value>)
    requires |now| == |source| && s.StringsAt() <= |source| && i < |saved|
    ensures Collected(source, s, now, saved[..i + 1], before)
         == AlsoCollected(source, s, now, saved[i], Collected(source, s, now, saved[..i], before))
  {
    assert saved[..i + 1][..i] == saved[..i];
  }

  // Runs

  /** A string of a structure: where the table holds it, and the trimmed text made of it. */
  datatype Entry = Entry(start: nat, length: nat, pretty: nat)

  predicate IsPlaced(source: seq<Byte>, s: Structure, e: Entry) {
    && s.StringsAt() <= e.start && e.start + e.length < s.End() <= |source|
    && source[e.start + e.length] == 0 && forall p | e.start <= p < e.start + e.length :: source[p] != 0
  }

  /** The strings of a structure stand one after another. */
  predicate AreEntries(source: seq<Byte>, s: Structure, entries: seq<Entry>) {
    && (forall i | 0 <= i < |entries| :: IsPlaced(source, s, entries[i]))
    && (forall i, j | 0 <= i < j < |entries| :: entries[i].start + entries[i].length < entries[j].start)
  }

  /** The first place of a string where a text stands. */
  function FindText(source: seq<Byte>, text: seq<Byte>, p: nat, end: nat): (r: Option<nat>)
    requires end <= |source|
    ensures r.Some? ==> p <= r.value && r.value + |text| <= end && Occurs(source, text, r.value)
    decreases end - p
  {
    if p + |text| > end then None
    else if Occurs(source, text, p) then Some(p)
    else if p == end then None
    else FindText(source, text, p + 1, end)
  }

  function FindEntry(entries: seq<Entry>, pretty: nat): (r: Option<Entry>)
    ensures r.Some? ==> r.value in entries && r.value.pretty == pretty
  {
    if entries == [] then None
    else if entries[0].pretty == pretty then Some(entries[0])
    else FindEntry(entries[1..], pretty)
  }

  /** The string a text has been made of is written over where it holds it. */
  function RawReplaced(source: seq<Byte>, table: seq<Byte>, entries: seq<Entry>, pretty: nat,
                       text: seq<Byte>, replacement: seq<Byte>): (r: seq<Byte>)
    requires |table| == |source| && |replacement| == |text|
    requires forall i | 0 <= i < |entries| :: entries[i].start + entries[i].length <= |source|
    ensures |r| == |table|
  {
    var e := FindEntry(entries, pretty);
    if e.None? then table
    else
      var p := FindText(source, text, e.value.start, e.value.start + e.value.length);
      if p.None? then table else Overwrite(table, p.value, replacement)
  }

  /**
   Bytes of one structure past its header have changed, and those of its
   strings are zero where the source is: the layout is kept.
   */
  lemma ChangeKeepsLayout(source: seq<Byte>, a: seq<Byte>, b: seq<Byte>, structures: seq<Structure>, k: nat, p: nat,
                          q: nat)
    requires |source| == |a| == |b| && SameLayout(source, a, structures, 0)
    requires Tiles(structures, 0, EndOf(structures, 0))
    requires k < |structures| && structures[k].offset + HEADER_SIZE <= p && q <= structures[k].End()
    requires forall i | 0 <= i < |a| && !(p <= i < q) :: a[i] == b[i]
    requires forall i | p <= i < q && structures[k].StringsAt() <= i < |a| :: source[i] == 0 <==> b[i] == 0
    ensures SameLayout(source, b, structures, 0)
  {
    TilesInOrder(structures, 0, EndOf(structures, 0));
    forall l | 0 <= l < |structures|
      ensures IsKept(source, b, structures[l])
    {
      assert IsKept(source, a, structures[l]);
      if l < k {
        assert structures[l].End() <= structures[k].offset;
      } else if k < l {
        assert structures[k].End() <= structures[l].offset;
      }
    }
  }

  /** Bytes of one structure past its header have changed: no header has. */
  lemma ChangeKeepsHeaders(source: seq<Byte>, a: seq<Byte>, b: seq<Byte>, structures: seq<Structure>, k: nat,
                           p: nat, q: nat)
    requires |source| == |a| == |b| && AreHeadersKept(source, a, structures, 0)
    requires Tiles(structures, 0, EndOf(structures, 0))
    requires k < |structures| && structures[k].offset + HEADER_SIZE <= p && q <= structures[k].End()
    requires forall l | 0 <= l < |structures| :: structures[l].body >= HEADER_SIZE
    requires forall i | 0 <= i < |a| && !(p <= i < q) :: a[i] == b[i]
    ensures AreHeadersKept(source, b, structures, 0)
  {
    TilesInOrder(structures, 0, EndOf(structures, 0));
    forall l, i | 0 <= l < |structures| && structures[l].offset <= i < structures[l].offset + HEADER_SIZE && i < |a|
      ensures source[i] == b[i]
    {
      if l < k {
        assert structures[l].End() <= structures[k].offset;
      } else if k < l {
        assert structures[k].End() <= structures[l].offset;
      }
    }
  }

  /** A structure which is encoded into its own length keeps its header, whatever values it has. */
  lemma EncodedHeaderIsKept(e: S.Entity, fs: seq<Field>, info: Info, version: Version)
    requires S.IsCreated(e)
    ensures var r := S.Encode(e, fs, info, true, version);
      r.Some? && |r.value| == |e.body| ==> r.value[..HEADER_SIZE] == e.body[..HEADER_SIZE]
  {
    hide S.FinishedHeader, E.EncodeList, E.Copy, S.Begin;
    var t := S.TargetOf(e, true, version);
    S.HeaderIsKept(e, t);
  }

  // Searches

  /** What a search looks at is in the table. */
  predicate IsWithin(source: seq<Byte>, s: Structure, entries: seq<Entry>) {
    && s.body >= HEADER_SIZE && s.End() <= |source|
    && forall i | 0 <= i < |entries| :: entries[i].start + entries[i].length <= |source|
  }

  function StringsSearched(source: seq<Byte>, values: seq<Value>, entries: seq<Entry>, n: nat,
                           table: seq<Byte>): (r: seq<Byte>)
    requires n <= |entries| && |table| == |source| && AreValues(values)
    requires forall i | 0 <= i < |entries| :: entries[i].start + entries[i].length <= |source|
    ensures |r| == |table|
  {
    if n == 0 then table
    else
      var e := entries[n - 1];
      Replaced(source, StringsSearched(source, values, entries, n - 1, table), values, SIZE_MAX,
               e.start, e.start + e.length, SUBSTRING_MIN)
  }

  /** The header is left out. */
  function BodySearched(source: seq<Byte>, values: seq<Value>, s: Structure, table: seq<Byte>): (r: seq<Byte>)
    requires |table| == |source| && AreValues(values) && s.body >= HEADER_SIZE && s.End() <= |source|
    ensures |r| == |table|
  {
    if s.body == HEADER_SIZE then table
    else Replaced(source, table, values, SIZE_MAX, s.offset + HEADER_SIZE, s.StringsAt(), PATTERN_MIN)
  }

  function StructureSearched(source: seq<Byte>, values: seq<Value>, s: Structure, entries: seq<Entry>,
                             table: seq<Byte>): (r: seq<Byte>)
    requires |table| == |source| && AreValues(values) && IsWithin(source, s, entries)
    ensures |r| == |table|
  {
    BodySearched(source, values, s, StringsSearched(source, values, entries, |entries|, table))
  }

  predicate AreWithin(source: seq<Byte>, structures: seq<Structure>, strings: seq<seq<Entry>>) {
    |strings| == |structures| && forall k | 0 <= k < |structures| :: IsWithin(source, structures[k], strings[k])
  }

  function AllSearched(source: seq<Byte>, values: seq<Value>, structures: seq<Structure>, strings: seq<seq<Entry>>,
                       n: nat, table: seq<Byte>): (r: seq<Byte>)
    requires |table| == |source| && AreValues(values) && n <= |structures| && AreWithin(source, structures, strings)
    ensures |r| == |table|
  {
    if n == 0 then table
    else
      StructureSearched(source, values, structures[n - 1], strings[n - 1],
                        AllSearched(source, values, structures, strings, n - 1, table))
  }

  // Searched ranges

  predicate OnlyWithin(a: seq<Byte>, b: seq<Byte>, start: nat, end: nat) {
    |a| == |b| && forall p | 0 <= p < |a| && !(start <= p < end) :: a[p] == b[p]
  }

  /** Every occurrence in a range of the values which are long enough is written over. */
  ghost predicate IsSearched(source: seq<Byte>, values: seq<Value>, table: seq<Byte>, start: nat, end: nat,
                             minimum: nat) {
    forall v | 0 <= v < |values| && values[v].propagate && minimum <= |values[v].data| ::
      Search(source, values, start, end, minimum).Covers(table, v, start)
  }

  ghost predicate AreStringsSearched(source: seq<Byte>, values: seq<Value>, table: seq<Byte>, entries: seq<Entry>,
                                     n: nat)
    requires n <= |entries|
  {
    forall i | 0 <= i < n ::
      IsSearched(source, values, table, entries[i].start, entries[i].start + entries[i].length, SUBSTRING_MIN)
  }

  ghost predicate IsBodySearched(source: seq<Byte>, values: seq<Value>, table: seq<Byte>, s: Structure) {
    IsSearched(source, values, table, s.offset + HEADER_SIZE, s.StringsAt(), PATTERN_MIN)
  }

  ghost predicate IsStructureSearched(source: seq<Byte>, values: seq<Value>, table: seq<Byte>, s: Structure,
                                      entries: seq<Entry>) {
    AreStringsSearched(source, values, table, entries, |entries|) && IsBodySearched(source, values, table, s)
  }

  /** What has been searched stays so as long as its bytes do. */
  lemma StillSearched(source: seq<Byte>, values: seq<Value>, a: seq<Byte>, b: seq<Byte>, start: nat, end: nat,
                      minimum: nat)
    requires IsSearched(source, values, a, start, end, minimum)
    requires |a| == |b| && forall p | start <= p < end && p < |a| :: a[p] == b[p]
    ensures IsSearched(source, values, b, start, end, minimum)
  {
    var search := Search(source, values, start, end, minimum);
    forall v | 0 <= v < |values| && values[v].propagate && minimum <= |values[v].data|
      ensures search.Covers(b, v, start)
    {
      search.StillCoversRange(a, b, v);
    }
  }

  lemma StringsStillSearched(source: seq<Byte>, values: seq<Value>, a: seq<Byte>, b: seq<Byte>, entries: seq<Entry>,
                             n: nat)
    requires n <= |entries| && AreStringsSearched(source, values, a, entries, n) && |a| == |b|
    requires forall i, p | 0 <= i < n && entries[i].start <= p < entries[i].start + entries[i].length && p < |a| ::
      a[p] == b[p]
    ensures AreStringsSearched(source, values, b, entries, n)
  {
    hide IsSearched;
    forall i | 0 <= i < n
      ensures IsSearched(source, values, b, entries[i].start, entries[i].start + entries[i].length, SUBSTRING_MIN)
    {
      StillSearched(source, values, a, b, entries[i].start, entries[i].start + entries[i].length, SUBSTRING_MIN);
    }
  }

  lemma StructureStillSearched(source: seq<Byte>, values: seq<Value>, a: seq<Byte>, b: seq<Byte>, s: Structure,
                               entries: seq<Entry>)
    requires IsStructureSearched(source, values, a, s, entries) && AreEntries(source, s, entries)
    requires |a| == |b| && forall p | s.offset <= p < s.End() && p < |a| :: a[p] == b[p]
    ensures IsStructureSearched(source, values, b, s, entries)
  {
    hide IsSearched;
    StringsStillSearched(source, values, a, b, entries, |entries|);
    StillSearched(source, values, a, b, s.offset + HEADER_SIZE, s.StringsAt(), PATTERN_MIN);
  }

  // What searches do

  lemma RangeIsSearched(source: seq<Byte>, values: seq<Value>, table: seq<Byte>, start: nat, end: nat, minimum: nat)
    requires |table| == |source| && start <= end <= |source| && AreValues(values)
    ensures var r := Replaced(source, table, values, SIZE_MAX, start, end, minimum);
      IsSearched(source, values, r, start, end, minimum) && OnlyWithin(table, r, start, end)
  {
    var search := Search(source, values, start, end, minimum);
    hide search.Covers, search.Stands, Replaced;
    search.NothingIsLeft(table, SIZE_MAX);
    search.OutsideIsKept(table, Replaced(source, table, values, SIZE_MAX, start, end, minimum));
  }

  lemma {:induction false} StringsAreSearched(source: seq<Byte>, values: seq<Value>, s: Structure,
                                              entries: seq<Entry>, n: nat, table: seq<Byte>)
    requires |table| == |source| && AreValues(values) && n <= |entries| && AreEntries(source, s, entries)
    ensures var r := StringsSearched(source, values, entries, n, table);
      AreStringsSearched(source, values, r, entries, n) && OnlyWithin(table, r, s.StringsAt(), s.End())
  {
    hide IsSearched, Replaced;
    if n > 0 {
      var e, before := entries[n - 1], StringsSearched(source, values, entries, n - 1, table);
      StringsAreSearched(source, values, s, entries, n - 1, table);
      RangeIsSearched(source, values, before, e.start, e.start + e.length, SUBSTRING_MIN);
      var r := StringsSearched(source, values, entries, n, table);
      StringsStillSearched(source, values, before, r, entries, n - 1);
    }
  }

  lemma BodyIsSearched(source: seq<Byte>, values: seq<Value>, s: Structure, table: seq<Byte>)
    requires |table| == |source| && AreValues(values) && s.body >= HEADER_SIZE && s.End() <= |source|
    ensures var r := BodySearched(source, values, s, table);
      && IsBodySearched(source, values, r, s)
      && OnlyWithin(table, r, s.offset + HEADER_SIZE, s.StringsAt())
  {
    hide Replaced;
    if s.body == HEADER_SIZE {
      NothingIsSearched(source, values, table, s.StringsAt(), PATTERN_MIN);
    } else {
      RangeIsSearched(source, values, table, s.offset + HEADER_SIZE, s.StringsAt(), PATTERN_MIN);
    }
  }

  lemma NothingIsSearched(source: seq<Byte>, values: seq<Value>, table: seq<Byte>, p: nat, minimum: nat)
    requires AreValues(values)
    ensures IsSearched(source, values, table, p, p, minimum)
  {
  }

  lemma StructureIsSearched(source: seq<Byte>, values: seq<Value>, s: Structure, entries: seq<Entry>,
                            table: seq<Byte>)
    requires |table| == |source| && AreValues(values) && IsWithin(source, s, entries)
    requires AreEntries(source, s, entries)
    ensures var r := StructureSearched(source, values, s, entries, table);
      IsStructureSearched(source, values, r, s, entries) && OnlyWithin(table, r, s.offset, s.End())
  {
    hide IsSearched, StringsSearched, BodySearched;
    var before := StringsSearched(source, values, entries, |entries|, table);
    StringsAreSearched(source, values, s, entries, |entries|, table);
    BodyIsSearched(source, values, s, before);
    StringsStillSearched(source, values, before, BodySearched(source, values, s, before), entries, |entries|);
  }

  /** Searching all the structures leaves every one of them searched. */
  lemma {:induction false} AllAreSearched(source: seq<Byte>, values: seq<Value>, structures: seq<Structure>,
                                          strings: seq<seq<Entry>>, n: nat, table: seq<Byte>)
    requires |table| == |source| && AreValues(values) && n <= |structures| && AreWithin(source, structures, strings)
    requires Tiles(structures, 0, EndOf(structures, 0))
    requires forall k | 0 <= k < |structures| :: AreEntries(source, structures[k], strings[k])
    ensures var r := AllSearched(source, values, structures, strings, n, table);
      forall k | 0 <= k < n :: IsStructureSearched(source, values, r, structures[k], strings[k])
  {
    hide IsStructureSearched, StructureSearched, AreEntries, IsWithin, Tiles;
    if n > 0 {
      var before := AllSearched(source, values, structures, strings, n - 1, table);
      var r := AllSearched(source, values, structures, strings, n, table);
      AllAreSearched(source, values, structures, strings, n - 1, table);
      StructureIsSearched(source, values, structures[n - 1], strings[n - 1], before);
      TilesInOrder(structures, 0, EndOf(structures, 0));
      forall k | 0 <= k < n - 1
        ensures IsStructureSearched(source, values, r, structures[k], strings[k])
      {
        StructureStillSearched(source, values, before, r, structures[k], strings[k]);
      }
    }
  }

  /** The search of a string of a structure, or of its body. */
  function SearchOf(source: seq<Byte>, values: seq<Value>, s: Structure, entries: seq<Entry>, i: Option<nat>): Search
    requires i.Some? ==> i.value < |entries|
  {
    if i.None? then Search(source, values, s.offset + HEADER_SIZE, s.StringsAt(), PATTERN_MIN)
    else
      var e := entries[i.value];
      Search(source, values, e.start, e.start + e.length, SUBSTRING_MIN)
  }

  /** A byte of a replacement, standing where a string or the body of a structure has had the value. */
  ghost predicate StandsIn(source: seq<Byte>, values: seq<Value>, s: Structure, entries: seq<Entry>, byte: Byte,
                           p: nat) {
    exists i: Option<nat> ::
      (i.Some? ==> i.value < |entries|) && SearchOf(source, values, s, entries, i).Stands(byte, p)
  }

  ghost predicate StandsAt(source: seq<Byte>, values: seq<Value>, structures: seq<Structure>,
                           strings: seq<seq<Entry>>, byte: Byte, p: nat)
    requires |strings| == |structures|
  {
    exists k :: 0 <= k < |structures| && StandsIn(source, values, structures[k], strings[k], byte, p)
  }

  lemma {:induction false} StringsSearchedAt(source: seq<Byte>, values: seq<Value>, s: Structure, entries: seq<Entry>,
                                             n: nat, table: seq<Byte>, p: nat)
    requires n <= |entries| && |table| == |source| && AreValues(values) && p < |table|
    requires IsWithin(source, s, entries)
    ensures var r := StringsSearched(source, values, entries, n, table);
      r[p] == table[p] || StandsIn(source, values, s, entries, r[p], p)
  {
    hide Replaced;
    if n > 0 {
      StringsSearchedAt(source, values, s, entries, n - 1, table, p);
      var search := SearchOf(source, values, s, entries, Some(n - 1));
      hide search.Stands;
      search.SearchedAt(StringsSearched(source, values, entries, n - 1, table), p);
    }
  }

  lemma StructureSearchedAt(source: seq<Byte>, values: seq<Value>, s: Structure, entries: seq<Entry>,
                            table: seq<Byte>, p: nat)
    requires |table| == |source| && AreValues(values) && p < |table| && IsWithin(source, s, entries)
    ensures var r := StructureSearched(source, values, s, entries, table);
      r[p] == table[p] || StandsIn(source, values, s, entries, r[p], p)
  {
    hide Replaced, StringsSearched;
    StringsSearchedAt(source, values, s, entries, |entries|, table, p);
    if s.body != HEADER_SIZE {
      var search := SearchOf(source, values, s, entries, None);
      hide search.Stands;
      search.SearchedAt(StringsSearched(source, values, entries, |entries|, table), p);
    }
  }

  /** Bytes a search changes are bytes of replacements, standing where the values have been found. */
  lemma {:induction false} AllSearchedAt(source: seq<Byte>, values: seq<Value>, structures: seq<Structure>,
                                         strings: seq<seq<Entry>>, n: nat, table: seq<Byte>, p: nat)
    requires |table| == |source| && AreValues(values) && n <= |structures| && p < |table|
    requires AreWithin(source, structures, strings)
    ensures var r := AllSearched(source, values, structures, strings, n, table);
      r[p] == table[p] || StandsAt(source, values, structures, strings, r[p], p)
  {
    hide StructureSearched, StandsIn, IsWithin;
    if n > 0 {
      AllSearchedAt(source, values, structures, strings, n - 1, table, p);
      StructureSearchedAt(source, values, structures[n - 1], strings[n - 1],
                          AllSearched(source, values, structures, strings, n - 1, table), p);
    }
  }

  /** Numbers are drawn by the values they are to replace, so that equal ones are replaced equally. */
  class Anonymizer {
    const source: seq<Byte>
    const structures: seq<Structure>
    const strings: seq<seq<Entry>>
    const draws: seq<Byte> -> nat -> nat
    const table: array<Byte>
    var values: seq<Value>

    /** The structures tile the table, and hold their strings. */
    ghost predicate Valid()
      reads `values
    {
      && table.Length == |source| && AreValues(values) && |strings| == |structures|
      && Tiles(structures, 0, EndOf(structures, 0)) && EndOf(structures, 0) <= |source|
      && (forall k {:trigger AreHeld(k)} {:trigger strings[k]} {:trigger structures[k]} | 0 <= k < |structures| ::
        AreHeld(k))
    }

    ghost predicate AreHeld(k: nat)
      requires k < |structures| == |strings|
    {
      && structures[k].End() <= |source| && structures[k].body >= HEADER_SIZE
      && AreEntries(source, structures[k], strings[k])
    }

    ghost predicate Keeps()
      requires table.Length == |source|
      reads table
    {
      SameLayout(source, table[..], structures, 0)
    }

    /** Headers are what they have been, whatever has become of the strings. */
    ghost predicate KeepsHeaders()
      requires table.Length == |source|
      reads table
    {
      AreHeadersKept(source, table[..], structures, 0)
    }

    constructor (source: seq<Byte>, structures: seq<Structure>, strings: seq<seq<Entry>>,
                 draws: seq<Byte> -> nat -> nat)
      requires |strings| == |structures|
      requires Tiles(structures, 0, EndOf(structures, 0)) && EndOf(structures, 0) <= |source|
      requires forall k | 0 <= k < |structures| :: structures[k].End() <= |source| && structures[k].body >= HEADER_SIZE
      requires forall k | 0 <= k < |structures| :: AreEntries(source, structures[k], strings[k])
      ensures Valid() && Keeps() && KeepsHeaders() && values == [] && fresh(table) && table[..] == source
      ensures this.source == source && this.structures == structures && this.strings == strings && this.draws == draws
    {
      this.source, this.structures, this.strings, this.draws, values := source, structures, strings, draws, [];
      table := new Byte[|source|](i requires 0 <= i < |source| => source[i]);
    }

    /** A value is added once, and is looked for everywhere if it has ever been asked to. */
    method Add(data: seq<Byte>, replacement: seq<Byte>, propagate: bool)
      requires Valid() && |data| == |replacement| < SIZE_MAX
      modifies `values
      ensures Valid()
      ensures values == if data == [] || IsBlank(data) then old(values)
                        else Added(old(values), Value(data, replacement, propagate))
    {
      if |data| == 0 || IsBlank(data) {
        return;
      }
      ghost var v := Value(data, replacement, propagate);
      assert AreValues([v]) by {
        assert [v][0] == v;
      }
      AddedAreValues(values, v);
      var i := 0;
      while i < |values|
        invariant 0 <= i <= |values| && values == old(values)
        invariant forall k | 0 <= k < i :: values[k].data != data
      {
        if values[i].data == data {
          AddedFound(values, v, i);
          values := values[i := values[i].(propagate := values[i].propagate || propagate)];
          return;
        }
        i := i + 1;
      }
      AddedLast(values, v);
      values := values + [Value(data, replacement, propagate)];
    }

    /** The text of a member is written over in the string it has been made of. */
    method RawString(k: nat, pretty: nat, text: seq<Byte>, replacement: seq<Byte>)
      requires Valid() && k < |structures| && |text| == |replacement|
      modifies table
      ensures table[..] == RawReplaced(source, old(table[..]), strings[k], pretty, text, replacement)
      ensures old(Keeps()) && KeepsZeros(text, replacement) ==> Keeps()
      ensures old(KeepsHeaders()) ==> KeepsHeaders()
    {
      hide KeepsZeros, SameLayout, AreHeadersKept, Tiles, AreHeld, IsPlaced, FindText, FindEntry;
      var e := FindString(k, pretty);
      StringsArePlaced(k);
      if e.Some? {
        RawStringAt(k, e.value, text, replacement);
      }
    }

    method FindString(k: nat, pretty: nat) returns (found: Option<Entry>)
      requires k < |strings|
      ensures found == FindEntry(strings[k], pretty)
    {
      var entries := strings[k];
      for i := 0 to |entries|
        invariant FindEntry(entries, pretty) == FindEntry(entries[i..], pretty)
      {
        if entries[i].pretty == pretty {
          return Some(entries[i]);
        }
        assert entries[i..][1..] == entries[i + 1..];
      }
      return None;
    }

    lemma StringsArePlaced(k: nat)
      requires Valid() && k < |structures|
      ensures forall i | 0 <= i < |strings[k]| ::
        IsPlaced(source, structures[k], strings[k][i]) && strings[k][i].start + strings[k][i].length <= |source|
    {
      hide Tiles;
      assert AreHeld(k);
    }

    method RawStringAt(k: nat, e: Entry, text: seq<Byte>, replacement: seq<Byte>)
      requires Valid() && k < |structures| && |text| == |replacement| && IsPlaced(source, structures[k], e)
      modifies table
      ensures var p := FindText(source, text, e.start, e.start + e.length);
        table[..] == if p.None? then old(table[..]) else Overwrite(old(table[..]), p.value, replacement)
      ensures old(Keeps()) && KeepsZeros(text, replacement) ==> Keeps()
      ensures old(KeepsHeaders()) ==> KeepsHeaders()
    {
      hide KeepsZeros, SameLayout, AreHeadersKept, Tiles, AreEntries, FindText;
      var found := Find(text, e.start, e.start + e.length);
      if found.Some? {
        CopyInto(found.value, replacement);
        if old(Keeps()) && KeepsZeros(text, replacement) {
          TextKeepsLayout(k, found.value, text, replacement, old(table[..]));
        }
        if old(KeepsHeaders()) {
          ChangeIsPastHeader(k, old(table[..]), table[..], found.value, found.value + |text|);
        }
      }
    }

    method Find(text: seq<Byte>, start: nat, end: nat) returns (found: Option<nat>)
      requires start <= end <= |source|
      ensures found == FindText(source, text, start, end)
    {
      var p := start;
      while p + |text| <= end
        invariant start <= p <= end + 1
        invariant p <= end ==> FindText(source, text, start, end) == FindText(source, text, p, end)
        invariant p > end ==> FindText(source, text, start, end).None?
      {
        if Occurs(source, text, p) {
          return Some(p);
        }
        p := p + 1;
      }
      return None;
    }

    lemma TextKeepsLayout(k: nat, p: nat, text: seq<Byte>, replacement: seq<Byte>, before: seq<Byte>)
      requires Valid() && k < |structures| && KeepsZeros(text, replacement) && Occurs(source, text, p)
      requires structures[k].StringsAt() <= p && p + |text| <= structures[k].End()
      requires |before| == |source| && SameLayout(source, before, structures, 0)
      ensures SameLayout(source, Overwrite(before, p, replacement), structures, 0)
    {
      var after := Overwrite(before, p, replacement);
      assert AreHeld(k);
      assert forall i | p <= i < p + |text| :: source[i] == text[i - p] && after[i] == replacement[i - p];
      ChangeKeepsLayout(source, before, after, structures, k, p, p + |text|);
    }

    lemma ChangeIsPastHeader(k: nat, a: seq<Byte>, b: seq<Byte>, p: nat, q: nat)
      requires Valid() && k < |structures| && |a| == |b| == |source| && AreHeadersKept(source, a, structures, 0)
      requires structures[k].offset + HEADER_SIZE <= p && q <= structures[k].End() && OnlyWithin(a, b, p, q)
      ensures AreHeadersKept(source, b, structures, 0)
    {
      hide AreHeadersKept, Tiles, AreEntries;
      forall l | 0 <= l < |structures|
        ensures structures[l].body >= HEADER_SIZE
      {
        assert AreHeld(l);
      }
      ChangeKeepsHeaders(source, a, b, structures, k, p, q);
    }

    method CopyInto(p: nat, bytes: seq<Byte>)
      requires p + |bytes| <= table.Length
      modifies table
      ensures table[..] == Overwrite(old(table[..]), p, bytes)
    {
      for i := 0 to |bytes|
        invariant table[..] == Overwrite(old(table[..]), p, bytes[..i])
      {
        table[p + i] := bytes[i];
      }
      assert bytes[..|bytes|] == bytes;
    }

    /** Every occurrence a range has of the values which are long enough is written over. */
    method Replace(start: nat, end: nat, minimum: nat)
      requires Valid() && start <= end <= |source|
      modifies table
      ensures table[..] == Replaced(source, old(table[..]), values, SIZE_MAX, start, end, minimum)
    {
      ghost var before := table[..];
      var previous: nat := SIZE_MAX;
      while true
        invariant Replaced(source, before, values, SIZE_MAX, start, end, minimum)
               == Replaced(source, table[..], values, previous, start, end, minimum)
        decreases previous
      {
        var longest := FindLongest(previous);
        if longest == 0 || longest < minimum {
          break;
        }
        ReplaceAll(longest, start, end);
        previous := longest;
      }
    }

    method FindLongest(previous: nat) returns (longest: nat)
      ensures longest == Longest(values, previous)
    {
      longest := 0;
      for i := 0 to |values|
        invariant longest == Longest(values[..i], previous)
      {
        assert values[..i + 1][..i] == values[..i];
        var length := |values[i].data|;
        if length < previous && length > longest {
          longest := length;
        }
      }
      assert values[..|values|] == values;
    }

    method ReplaceAll(length: nat, start: nat, end: nat)
      requires Valid() && start <= end <= |source|
      modifies table
      ensures table[..] == StampAll(source, old(table[..]), values, length, start, end, 0)
    {
      ghost var before := table[..];
      var i := 0;
      while i < |values|
        invariant 0 <= i <= |values|
        invariant StampAll(source, before, values, length, start, end, 0)
               == StampAll(source, table[..], values, length, start, end, i)
      {
        var v := values[i];
        if IsDue(v, length) {
          if end - start >= |v.data| {
            ReplaceEach(v, start, end);
          }
        }
        i := i + 1;
      }
    }

    method ReplaceEach(v: Value, start: nat, end: nat)
      requires table.Length == |source| && end <= |source| && 0 < |v.data| == |v.replacement|
      modifies table
      ensures table[..] == Stamp(source, old(table[..]), v, start, end)
    {
      ghost var before := table[..];
      var pos := start;
      while pos + |v.data| <= end
        invariant Stamp(source, before, v, start, end) == Stamp(source, table[..], v, pos, end)
        decreases |source| - pos
      {
        if Occurs(source, v.data, pos) {
          CopyInto(pos, v.replacement);
          pos := pos + |v.data|;
        } else {
          pos := pos + 1;
        }
      }
    }

    // Members

    /** The text of a private member is replaced where it is, and kept to be looked for elsewhere. */
    method MemberString(k: nat, pretty: nat, text: seq<Byte>, isPlaceholder: bool)
      requires Valid() && k < |structures| && |text| < SIZE_MAX
      modifies `values, table
      ensures Valid()
      ensures old(Keeps()) ==> Keeps()
      ensures old(KeepsHeaders()) ==> KeepsHeaders()
      ensures AreSafe(old(values)) ==> AreSafe(values)
      ensures IsNoValue(text) || isPlaceholder ==> values == old(values) && table[..] == old(table[..])
      ensures !IsNoValue(text) && !isPlaceholder ==>
        var replacement := ReplacedText(text, draws(text));
        && values == Added(old(values), Value(text, replacement, IsIdentity(text)))
        && table[..] == RawReplaced(source, old(table[..]), strings[k], pretty, text, replacement)
    {
      hide KeepsHeaders;
      if |text| == 0 || IsBlank(text) || isPlaceholder {
        return;
      }
      var replacement := new Byte[|text|];
      ReplaceText(text, draws(text), replacement);
      RawString(k, pretty, text, replacement[..]);
      var propagate := IsIdentifier(text);
      Add(text, replacement[..], propagate);
      if AreSafe(old(values)) {
        AddedIsSafe(old(values), Value(text, replacement[..], propagate));
      }
    }

    predicate IsInBody(k: nat, at: nat, length: nat)
      requires k < |structures|
    {
      structures[k].offset + HEADER_SIZE <= at && at + length <= structures[k].StringsAt()
    }

    /** A member which lies elsewhere than in the table is left alone. */
    method MemberBinary(k: nat, at: Option<nat>, length: nat, isMac: bool)
      requires Valid() && k < |structures| && length < SIZE_MAX
      modifies `values, table
      ensures Valid()
      ensures at.Some? && old(Keeps()) && IsInBody(k, at.value, length) ==> Keeps()
      ensures at.Some? && old(KeepsHeaders()) && IsInBody(k, at.value, length) ==> KeepsHeaders()
      ensures at.None? || at.value + length > |source| || IsBlank(source[at.value..at.value + length]) ==>
        values == old(values) && table[..] == old(table[..])
      ensures at.Some? && at.value + length <= |source| && !IsBlank(source[at.value..at.value + length]) ==>
        var data := source[at.value..at.value + length];
        var replacement := BytesOf(data, draws(data), KeptOf(length, isMac));
        && table[..] == Overwrite(old(table[..]), at.value, replacement)
        && values == Added(old(values), Value(data, replacement, true))
    {
      if at.None? || length == 0 || at.value + length > |source| {
        return;
      }
      var data := source[at.value..at.value + length];
      if IsBlank(data) {
        return;
      }
      var keep := if isMac then 3 else 0;
      if keep >= length {
        keep := 0;
      }
      ReplaceBytes(data, draws(data), keep, table, at.value);
      assert table[at.value..at.value + length] == BytesOf(data, draws(data), keep);
      if old(Keeps()) && IsInBody(k, at.value, length) {
        assert AreHeld(k);
        ChangeKeepsLayout(source, old(table[..]), table[..], structures, k, at.value, at.value + length);
      }
      if old(KeepsHeaders()) && IsInBody(k, at.value, length) {
        ChangeIsPastHeader(k, old(table[..]), table[..], at.value, at.value + length);
      }
      Add(data, table[at.value..at.value + length], true);
    }

    /**
     The structure is encoded with the values replaced, and written over itself
     only if it is as long as it has been: its strings are where they were.
     */
    method Write(k: nat, e: S.Entity, fs: seq<Field>, info: Info, version: Version) returns (ok: bool)
      requires Valid() && k < |structures| && S.IsCreated(e)
      requires e.body == source[structures[k].offset..structures[k].StringsAt()]
      modifies table
      ensures old(Keeps()) ==> Keeps()
      ensures old(KeepsHeaders()) ==> KeepsHeaders()
      ensures var r := S.Encode(e, fs, info, true, version);
        && (ok <==> r.Some? && |r.value| == structures[k].body)
        && table[..] == if ok then Overwrite(old(table[..]), structures[k].offset, r.value) else old(table[..])
    {
      hide S.Encode, S.IsCreated, SameLayout, AreHeadersKept, Tiles;
      assert AreHeld(k);
      var encoded := S.Encode(e, fs, info, true, version);
      if encoded.None? {
        return false;
      }
      var s := structures[k];
      if |encoded.value| != s.body || s.offset + s.body > table.Length {
        return false;
      }
      CopyInto(s.offset, encoded.value);
      EncodedHeaderIsKept(e, fs, info, version);
      if old(Keeps()) {
        BodyKeepsLayout(k, encoded.value, old(table[..]));
      }
      if old(KeepsHeaders()) {
        BodyKeepsHeaders(k, encoded.value, old(table[..]));
      }
      return true;
    }

    lemma BodyKeepsLayout(k: nat, bytes: seq<Byte>, before: seq<Byte>)
      requires Valid() && k < |structures| && |bytes| == structures[k].body
      requires structures[k].End() <= |source|
      requires bytes[..HEADER_SIZE] == source[structures[k].offset..structures[k].StringsAt()][..HEADER_SIZE]
      requires |before| == |source| && SameLayout(source, before, structures, 0)
      ensures SameLayout(source, Overwrite(before, structures[k].offset, bytes), structures, 0)
    {
      var s := structures[k];
      assert IsKept(source, before, s);
      BodyChanges(k, bytes, before);
      ChangeKeepsLayout(source, before, Overwrite(before, s.offset, bytes), structures, k,
                        s.offset + HEADER_SIZE, s.StringsAt());
    }

    lemma BodyChanges(k: nat, bytes: seq<Byte>, before: seq<Byte>)
      requires k < |structures| && |bytes| == structures[k].body >= HEADER_SIZE
      requires structures[k].End() <= |source| == |before|
      requires bytes[..HEADER_SIZE] == source[structures[k].offset..structures[k].StringsAt()][..HEADER_SIZE]
      requires forall p | structures[k].offset <= p < structures[k].offset + HEADER_SIZE :: before[p] == source[p]
      ensures OnlyWithin(before, Overwrite(before, structures[k].offset, bytes), structures[k].offset + HEADER_SIZE,
                         structures[k].StringsAt())
    {
      var s := structures[k];
      forall i | s.offset <= i < s.offset + HEADER_SIZE
        ensures Overwrite(before, s.offset, bytes)[i] == before[i]
      {
        assert bytes[..HEADER_SIZE][i - s.offset] == bytes[i - s.offset];
        assert source[s.offset..s.StringsAt()][..HEADER_SIZE][i - s.offset] == source[i];
      }
    }

    lemma BodyKeepsHeaders(k: nat, bytes: seq<Byte>, before: seq<Byte>)
      requires Valid() && k < |structures| && |bytes| == structures[k].body
      requires structures[k].End() <= |source|
      requires bytes[..HEADER_SIZE] == source[structures[k].offset..structures[k].StringsAt()][..HEADER_SIZE]
      requires |before| == |source| && AreHeadersKept(source, before, structures, 0)
      ensures AreHeadersKept(source, Overwrite(before, structures[k].offset, bytes), structures, 0)
    {
      var s := structures[k];
      assert AreHeld(k);
      BodyChanges(k, bytes, before);
      ChangeIsPastHeader(k, before, Overwrite(before, s.offset, bytes), s.offset + HEADER_SIZE, s.StringsAt());
    }

    /** Values of the members which have been encoded are looked for elsewhere too, as the structure holds them. */
    method Collect(k: nat, saved: seq<seq<Byte>>)
      requires Valid() && k < |structures| && forall i | 0 <= i < |saved| :: |saved[i]| < SIZE_MAX
      modifies `values
      ensures Valid()
      ensures values == Collected(source, structures[k], table[..], saved, old(values))
    {
      hide FindChanged, Added, Tiles, AreHeld;
      StringsAreWithin(k);
      for i := 0 to |saved|
        invariant Valid() && values == Collected(source, structures[k], table[..], saved[..i], old(values))
      {
        CollectedNext(source, structures[k], table[..], saved, i, old(values));
        CollectOne(k, saved[i]);
      }
      assert saved[..|saved|] == saved;
    }

    lemma StringsAreWithin(k: nat)
      requires Valid() && k < |structures|
      ensures structures[k].StringsAt() <= structures[k].End() <= |source|
    {
      hide Tiles, AreEntries;
      assert AreHeld(k);
    }

    method CollectOne(k: nat, data: seq<Byte>)
      requires Valid() && k < |structures| && structures[k].StringsAt() <= |source| && |data| < SIZE_MAX
      modifies `values
      ensures Valid()
      ensures values == AlsoCollected(source, structures[k], table[..], data, old(values))
    {
      hide FindChanged, Added, Tiles, AreHeld;
      if |data| < PATTERN_MIN {
        return;
      }
      var found := FindIn(k, data);
      if found.Some? {
        Add(data, table[found.value..found.value + |data|], true);
      }
    }

    method FindIn(k: nat, data: seq<Byte>) returns (found: Option<nat>)
      requires Valid() && k < |structures| && data != []
      ensures structures[k].StringsAt() <= |source|
        && found == FindChanged(source, structures[k], table[..], data, structures[k].offset)
    {
      assert AreHeld(k);
      ghost var now := table[..];
      var s := structures[k];
      var p := s.offset;
      while p + |data| <= s.StringsAt()
        invariant s.offset <= p
        invariant FindChanged(source, s, now, data, s.offset) == FindChanged(source, s, now, data, p)
        decreases |source| - p
      {
        if Occurs(source, data, p) && !Occurs(table[..], data, p) {
          return Some(p);
        }
        p := p + 1;
      }
      return None;
    }

    // Elsewhere

    lemma TableIsWithin()
      requires Valid()
      ensures AreWithin(source, structures, strings)
    {
      hide Tiles;
      forall k | 0 <= k < |structures|
        ensures IsWithin(source, structures[k], strings[k])
      {
        assert AreHeld(k);
        StringsArePlaced(k);
      }
    }

    method SearchRange(k: nat, start: nat, end: nat, minimum: nat)
      requires Valid() && k < |structures|
      requires structures[k].offset + HEADER_SIZE <= start <= end <= structures[k].End()
      modifies table
      ensures end <= |source| && table[..] == Replaced(source, old(table[..]), values, SIZE_MAX, start, end, minimum)
      ensures IsSearched(source, values, table[..], start, end, minimum)
      ensures OnlyWithin(old(table[..]), table[..], start, end)
      ensures old(Keeps()) && AreSafe(values) ==> Keeps()
      ensures old(KeepsHeaders()) ==> KeepsHeaders()
    {
      assert AreHeld(k);
      ghost var before := table[..];
      Replace(start, end, minimum);
      RangeIsSearched(source, values, before, start, end, minimum);
      if old(Keeps()) && AreSafe(values) {
        ghost var search := Search(source, values, start, end, minimum);
        search.NothingIsLeft(before, SIZE_MAX);
        RangeKeepsLayout(k, search, before, table[..]);
      }
      if old(KeepsHeaders()) {
        ChangeIsPastHeader(k, before, table[..], start, end);
      }
    }

    /** Only the part of the range which belongs to the strings has to keep its zeros. */
    lemma RangeKeepsLayout(k: nat, search: Search, a: seq<Byte>, b: seq<Byte>)
      requires Valid() && k < |structures| && search.source == source && AreSafe(search.values)
      requires structures[k].offset + HEADER_SIZE <= search.start <= search.end <= structures[k].End()
      requires |a| == |source| == |b| && SameLayout(source, a, structures, 0) && search.Changes(a, b)
      ensures SameLayout(source, b, structures, 0)
    {
      hide search.Changes;
      assert AreHeld(k) && IsKept(source, a, structures[k]);
      search.OutsideIsKept(a, b);
      forall i | search.start <= i < search.end && structures[k].StringsAt() <= i < |a|
        ensures source[i] == 0 <==> b[i] == 0
      {
        search.ZeroIsKept(a, b, i);
      }
      ChangeKeepsLayout(source, a, b, structures, k, search.start, search.end);
    }

    method SearchStrings(k: nat)
      requires Valid() && k < |structures|
      modifies table
      ensures AreWithin(source, structures, strings)
      ensures table[..] == StringsSearched(source, values, strings[k], |strings[k]|, old(table[..]))
      ensures AreStringsSearched(source, values, table[..], strings[k], |strings[k]|)
      ensures OnlyWithin(old(table[..]), table[..], structures[k].StringsAt(), structures[k].End())
      ensures old(Keeps()) && AreSafe(values) ==> Keeps()
      ensures old(KeepsHeaders()) ==> KeepsHeaders()
    {
      hide IsSearched, Replaced, Keeps, KeepsHeaders, AreSafe, AreEntries, AreStringsSearched;
      TableIsWithin();
      for i := 0 to |strings[k]|
        invariant table[..] == StringsSearched(source, values, strings[k], i, old(table[..]))
        invariant old(Keeps()) && AreSafe(values) ==> Keeps()
        invariant old(KeepsHeaders()) ==> KeepsHeaders()
      {
        StringIsHeld(k, i);
        var e := strings[k][i];
        SearchRange(k, e.start, e.start + e.length, SUBSTRING_MIN);
      }
      assert AreHeld(k);
      StringsAreSearched(source, values, structures[k], strings[k], |strings[k]|, old(table[..]));
    }

    lemma StringIsHeld(k: nat, i: nat)
      requires Valid() && k < |structures| && i < |strings[k]|
      ensures var e := strings[k][i];
        structures[k].offset + HEADER_SIZE <= e.start && e.start + e.length <= structures[k].End() <= |source|
    {
      hide Tiles;
      assert AreHeld(k);
      assert IsPlaced(source, structures[k], strings[k][i]);
    }

    method SearchBody(k: nat)
      requires Valid() && k < |structures|
      modifies table
      ensures AreWithin(source, structures, strings)
      ensures table[..] == BodySearched(source, values, structures[k], old(table[..]))
      ensures IsBodySearched(source, values, table[..], structures[k])
      ensures OnlyWithin(old(table[..]), table[..], structures[k].offset, structures[k].StringsAt())
      ensures old(Keeps()) && AreSafe(values) ==> Keeps()
      ensures old(KeepsHeaders()) ==> KeepsHeaders()
    {
      hide Replaced, Tiles;
      TableIsWithin();
      assert AreHeld(k);
      var start, end := structures[k].offset + HEADER_SIZE, structures[k].StringsAt();
      if end <= start || end > table.Length {
        return;
      }
      SearchRange(k, start, end, PATTERN_MIN);
    }

    ghost predicate AreSearched(n: nat)
      requires Valid() && n <= |structures|
      reads `values, table
    {
      forall k | 0 <= k < n :: IsStructureSearched(source, values, table[..], structures[k], strings[k])
    }

    /**
     Values are looked for in the strings and the bodies of all the structures,
     and written over wherever they are found. The table is cut into the same
     structures as long as the replacements keep their zeros.
     */
    method Elsewhere()
      requires Valid()
      modifies table
      ensures AreWithin(source, structures, strings)
      ensures table[..] == AllSearched(source, values, structures, strings, |structures|, old(table[..]))
      ensures AreSearched(|structures|)
      ensures old(Keeps()) && AreSafe(values) ==> Keeps()
      ensures old(KeepsHeaders()) ==> KeepsHeaders()
    {
      hide IsStructureSearched, StructureSearched, Tiles, AreEntries, Keeps, KeepsHeaders;
      TableIsWithin();
      for k := 0 to |structures|
        invariant table[..] == AllSearched(source, values, structures, strings, k, old(table[..]))
        invariant old(Keeps()) && AreSafe(values) ==> Keeps()
        invariant old(KeepsHeaders()) ==> KeepsHeaders()
      {
        SearchStructure(k);
      }
      forall k | 0 <= k < |structures|
        ensures AreEntries(source, structures[k], strings[k])
      {
        assert AreHeld(k);
      }
      AllAreSearched(source, values, structures, strings, |structures|, old(table[..]));
    }

    method SearchStructure(k: nat)
      requires Valid() && k < |structures|
      modifies table
      ensures AreWithin(source, structures, strings)
      ensures table[..] == StructureSearched(source, values, structures[k], strings[k], old(table[..]))
      ensures IsStructureSearched(source, values, table[..], structures[k], strings[k])
      ensures OnlyWithin(old(table[..]), table[..], structures[k].offset, structures[k].End())
      ensures old(Keeps()) && AreSafe(values) ==> Keeps()
      ensures old(KeepsHeaders()) ==> KeepsHeaders()
    {
      hide StringsSearched, BodySearched, Tiles, Keeps, KeepsHeaders, IsStructureSearched;
      SearchStrings(k);
      assert AreHeld(k);
      StructureIsSearched(source, values, structures[k], strings[k], old(table[..]));
      SearchBody(k);
    }

    /**
     An anonymized table is cut into the structures it has been anonymized by
     exactly when their string sets scan to the extents they had, and it is when
     all the replacements keep the zeros of their values.
     */
    lemma KeptIsScanned(limit: nat, strict: bool)
      requires Valid() && KeepsHeaders() && structures == ScanFrom(source, 0, 0, limit, strict).structures
      ensures ScanFrom(table[..], 0, 0, limit, strict) == ScanFrom(source, 0, 0, limit, strict)
         <==> AreSetsKept(source, table[..], structures)
      ensures Keeps() ==> ScanFrom(table[..], 0, 0, limit, strict) == ScanFrom(source, 0, 0, limit, strict)
    {
      hide ScanFrom, AreSetsKept, AreHeadersKept, SameLayout, Tiles;
      SetsDecideScan(source, table[..], 0, 0, limit, strict);
      if Keeps() {
        SameLayoutIsScanned(source, table[..], 0, 0, limit, strict);
      }
    }
  }
}
