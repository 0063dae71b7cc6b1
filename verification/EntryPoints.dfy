/**
 Entry points: how the kinds of them are decoded, and how one is relocated for
 a dump, whose table follows it (libopendmi/src/entry.c,
 libopendmi/src/context-save.c, libopendmi/src/utils.c). The layouts are those
 of sections 5.2.1 and 5.2.2 of DSP0134.
 */
module EntryPoints {
  import opened Wrappers
  import opened Bytes

  const ENTRY_MAX_SIZE: nat := 32
  const V30_SIZE: nat := 24
  const V21_SIZE: nat := 31
  const LEGACY_SIZE: nat := 15
  const IEPS: nat := 16
  const MAX_TABLE: nat := 0xFFFF_FFFF

  const ANCHOR_V30: seq<Byte> := [95, 83, 77, 51, 95]
  const ANCHOR_V21: seq<Byte> := [95, 83, 77, 95]
  const ANCHOR_LEGACY: seq<Byte> := [95, 68, 77, 73, 95]

  // Checksums

  /** Sum of bytes which wraps around. */
  function Sum(data: seq<Byte>): (sum: Byte) {
    if data == [] then 0 else Wrap(Sum(data[..|data| - 1]), data[|data| - 1])
  }

  function Wrap(a: nat, b: nat): (sum: Byte) {
    (a + b) % 256
  }

  /** What makes the sum zero. */
  method CalculateChecksum(data: seq<Byte>) returns (checksum: Byte)
    ensures Wrap(Sum(data), checksum) == 0 && (checksum == 0 <==> Sum(data) == 0)
  {
    var sum: Byte, index := 0, 0;
    while index < |data|
      invariant index <= |data| && sum == Sum(data[..index])
    {
      assert data[..index + 1][..index] == data[..index];
      sum := Wrap(sum, data[index]);
      index := index + 1;
    }
    assert data[..|data|] == data;
    checksum := (256 - sum) % 256;
  }

  lemma WrapIsAssociative(a: nat, b: nat, c: nat)
    ensures Wrap(a, Wrap(b, c)) == Wrap(Wrap(a, b), c)
  {
    WrapOfWrapped(b + c, a);
    WrapOfWrapped(a + b, c);
  }

  /** Wrapping a part of a sum early changes nothing. */
  lemma WrapOfWrapped(x: nat, y: nat)
    ensures (x % 256 + y) % 256 == (x + y) % 256
  {
    var q := x / 256;
    assert x + y == 256 * q + (x % 256 + y);
  }

  lemma SumOfOne(c: Byte)
    ensures Sum([c]) == c
  {
    assert [c][..0] == [];
  }

  lemma {:induction false} SumOfBoth(a: seq<Byte>, b: seq<Byte>)
    ensures Sum(a + b) == Wrap(Sum(a), Sum(b))
  {
    if b == [] {
      assert a + b == a;
    } else {
      hide Wrap;
      var n := |b| - 1;
      SumOfBoth(a, b[..n]);
      assert (a + b)[..|a| + n] == a + b[..n];
      WrapIsAssociative(Sum(a), Sum(b[..n]), b[n]);
    }
  }

  lemma SumWith(s: seq<Byte>, at: nat, c: Byte)
    requires at < |s|
    ensures Sum(s[at := c]) == Wrap(Sum(s[at := 0]), c)
  {
    hide Sum, Wrap;
    var before, after := s[..at], s[at + 1..];
    assert s[at := c] == (before + [c]) + after && s[at := 0] == (before + [0]) + after;
    SumOfThree(before, c, after);
    SumOfThree(before, 0, after);
    WrapIsAssociative(Sum(before) + Sum(after), 0, c);
    WrapOfZero(c);
  }

  lemma WrapOfZero(c: Byte)
    ensures Wrap(0, c) == c
  {
  }

  lemma SumOfThree(a: seq<Byte>, c: Byte, b: seq<Byte>)
    ensures Sum(a + [c] + b) == Wrap(Sum(a) + Sum(b), c)
  {
    hide Sum;
    SumOfBoth(a + [c], b);
    SumOfBoth(a, [c]);
    SumOfOne(c);
    WrapOfWrapped(Sum(a) + c, Sum(b));
  }

  // Decoding

  datatype Version = Version(major: nat, minor: nat, revision: nat)

  const NO_VERSION := Version(0, 0, 0)

  datatype Kind = V30 | V21 | Legacy

  /** What an entry point tells. The table is of a size, or of one at most. */
  datatype Point = Point(kind: Kind, version: Version, revision: nat, length: nat, address: nat,
                         maxSize: nat, size: nat, count: nat, entityMax: nat)

  function Load(data: seq<Byte>, at: nat, length: nat): nat
    requires at + length <= |data|
  {
    LeLoad(data[at..at + length])
  }

  predicate HasAnchor(data: seq<Byte>, anchor: seq<Byte>) {
    |anchor| <= |data| && data[..|anchor|] == anchor
  }

  function Nibbles(b: Byte): Version {
    Version(b / 16, b % 16, 0)
  }

  /** An intermediate entry point may lack its last byte, which is then neither summed nor told. */
  function DecodeLegacy(data: seq<Byte>, version: Version, p: Point): Option<Point>
    requires |data| >= LEGACY_SIZE - 1
  {
    var complete := |data| >= LEGACY_SIZE;
    if complete && Sum(data[..LEGACY_SIZE]) != 0 then None
    else
      var told: nat := if complete then data[14] else 0;
      Some(p.(version := if told != 0 && version == NO_VERSION then Nibbles(told) else version,
              length := LEGACY_SIZE, count := Load(data, 12, 2), address := Load(data, 8, 4),
              maxSize := Load(data, 6, 2), size := Load(data, 6, 2)))
  }

  const ZERO := Point(Legacy, NO_VERSION, 0, 0, 0, 0, 0, 0, 0)

  function DecodeV21(data: seq<Byte>): Option<Point>
    requires |data| >= V21_SIZE - 1
  {
    var length := data[5];
    if length > |data| || length < V21_SIZE - 1 || Sum(data[..length]) != 0 then None
    else
      var version := Version(data[6], data[7], 0);
      var ieps := data[IEPS..Min(|data|, V21_SIZE)];
      var p := DecodeLegacy(ieps, version, ZERO.(kind := V21, revision := data[10], entityMax := Load(data, 8, 2)));
      if p.None? then None else Some(p.value.(length := length))
  }

  function DecodeV30(data: seq<Byte>): Option<Point>
    requires |data| >= V30_SIZE
  {
    var length := data[6];
    if length > |data| || length < V30_SIZE || Sum(data[..length]) != 0 then None
    else Some(ZERO.(kind := V30, version := Version(data[7], data[8], data[9]), revision := data[10],
                    length := length, address := Load(data, 16, 8), maxSize := Load(data, 12, 4)))
  }

  function Decode(data: seq<Byte>): Option<Point> {
    if |data| >= V30_SIZE && HasAnchor(data, ANCHOR_V30) then DecodeV30(data)
    else if |data| >= V21_SIZE - 1 && HasAnchor(data, ANCHOR_V21) then DecodeV21(data)
    else if |data| >= LEGACY_SIZE && HasAnchor(data, ANCHOR_LEGACY) then DecodeLegacy(data, NO_VERSION, ZERO)
    else None
  }

  // Relocation

  function Stored(s: seq<Byte>, at: nat, bytes: seq<Byte>): (r: seq<Byte>)
    requires at + |bytes| <= |s|
    ensures |r| == |s|
    ensures forall i | 0 <= i < |s| :: r[i] == if at <= i < at + |bytes| then bytes[i - at] else s[i]
  {
    s[..at] + bytes + s[at + |bytes|..]
  }

  lemma SealIsZero(sum: Byte)
    ensures Wrap(sum, (256 - sum) % 256) == 0
  {
    if sum != 0 {
      assert (256 - sum) % 256 == 256 - sum;
    }
  }

  /** The checksum of a range, one of whose bytes it is. */
  function Sealed(s: seq<Byte>, from: nat, length: nat, at: nat): (r: seq<Byte>)
    requires from <= at < from + length <= |s|
    ensures |r| == |s| && forall i | 0 <= i < |s| && i != at :: r[i] == s[i]
    ensures Sum(r[from..from + length]) == 0
  {
    hide Sum, Wrap;
    var c: Byte := (256 - Sum(s[at := 0][from..from + length])) % 256;
    SealIsZero(Sum(s[at := 0][from..from + length]));
    SealSums(s, from, length, at, c);
    s[at := c]
  }

  lemma SealSums(s: seq<Byte>, from: nat, length: nat, at: nat, c: Byte)
    requires from <= at < from + length <= |s|
    ensures Sum(s[at := c][from..from + length]) == Wrap(Sum(s[at := 0][from..from + length]), c)
  {
    hide Sum;
    SumWith(s[from..from + length], at - from, c);
    assert s[at := c][from..from + length] == s[from..from + length][at - from := c];
    assert s[at := 0][from..from + length] == s[from..from + length][at - from := 0];
  }

  function CutAt(s: seq<Byte>, length: nat): (r: seq<Byte>)
    requires length <= |s|
    ensures |r| == |s| && forall i | 0 <= i < |s| :: r[i] == if i < length then s[i] else 0
  {
    s[..length] + Zeros(|s| - length)
  }

  function Padded(data: seq<Byte>): (r: seq<Byte>)
    requires |data| <= ENTRY_MAX_SIZE
    ensures |r| == ENTRY_MAX_SIZE && data <= r
  {
    data + Zeros(ENTRY_MAX_SIZE - |data|)
  }

  /** The intermediate entry point is always written completely. */
  function LengthOf(kind: Kind, data: seq<Byte>): nat
    requires |data| == ENTRY_MAX_SIZE
  {
    match kind
    case V30 => data[6]
    case V21 => Max(data[5], V21_SIZE)
    case Legacy => LEGACY_SIZE
  }

  function Relocated(kind: Kind, data: seq<Byte>): (r: seq<Byte>)
    requires |data| == ENTRY_MAX_SIZE && (kind.V30? ==> 6 <= data[6] <= ENTRY_MAX_SIZE)
    ensures |r| == ENTRY_MAX_SIZE
  {
    match kind
    case V30 => Sealed(Stored(data, 16, LeStore(ENTRY_MAX_SIZE, 8)), 0, data[6], 5)
    case V21 => Sealed(Stored(data, IEPS + 8, LeStore(ENTRY_MAX_SIZE, 4)), IEPS, LEGACY_SIZE, IEPS + 5)
    case Legacy => Sealed(Stored(data, 8, LeStore(ENTRY_MAX_SIZE, 4)), 0, LEGACY_SIZE, 5)
  }

  function Built(kind: Kind, data: seq<Byte>): (r: seq<Byte>)
    requires |data| <= ENTRY_MAX_SIZE && (kind.V30? ==> |data| >= V30_SIZE && 6 <= data[6])
    requires LengthOf(kind, Padded(data)) <= ENTRY_MAX_SIZE
    ensures |r| == ENTRY_MAX_SIZE
  {
    CutAt(Relocated(kind, Padded(data)), LengthOf(kind, Padded(data)))
  }

  /** An entry point which has been decoded can be built for a dump. */
  lemma DecodedIsBuilt(data: seq<Byte>)
    requires Decode(data).Some? && |data| <= ENTRY_MAX_SIZE
    ensures var kind := Decode(data).value.kind;
      && (kind.V30? ==> |data| >= V30_SIZE && 6 <= data[6])
      && LengthOf(kind, Padded(data)) <= ENTRY_MAX_SIZE
  {
  }

  /** The relocated one is the same, but for where its table is. */
  predicate IsMoved(p: Point, q: Point) {
    q == p.(address := ENTRY_MAX_SIZE)
  }

  lemma StoredIsLoaded(s: seq<Byte>, at: nat, length: nat)
    requires 1 <= length && at + length <= |s| && s[at..at + length] == LeStore(ENTRY_MAX_SIZE, length)
    ensures Load(s, at, length) == ENTRY_MAX_SIZE
  {
    LoadStore(ENTRY_MAX_SIZE, length);
    PowIsMonotone(1, length);
    assert Pow256(1) == 256 * Pow256(0);
    SmallMod(ENTRY_MAX_SIZE, Pow256(length));
  }

  lemma SmallMod(n: nat, p: nat)
    requires n < p
    ensures n % p == n
  {
  }

  lemma V30IsMoved(data: seq<Byte>)
    requires V30_SIZE <= |data| <= ENTRY_MAX_SIZE && HasAnchor(data, ANCHOR_V30) && DecodeV30(data).Some?
    ensures LengthOf(V30, Padded(data)) <= ENTRY_MAX_SIZE
    ensures Decode(Built(V30, data)).Some? && IsMoved(DecodeV30(data).value, Decode(Built(V30, data)).value)
  {
    hide Sum, Wrap, LeLoad, LeStore;
    var b := Built(V30, data);
    var length := data[6];
    var moved := Relocated(V30, Padded(data));
    assert b[..length] == moved[0..0 + length];
    assert b[..5] == data[..5];
    assert b[16..24] == LeStore(ENTRY_MAX_SIZE, 8);
    StoredIsLoaded(b, 16, 8);
    assert b[12..16] == data[12..16];
  }

  lemma LegacyIsMoved(data: seq<Byte>)
    requires LEGACY_SIZE <= |data| <= ENTRY_MAX_SIZE && HasAnchor(data, ANCHOR_LEGACY)
    requires DecodeLegacy(data, NO_VERSION, ZERO).Some?
    ensures Decode(Built(Legacy, data)).Some?
    ensures IsMoved(DecodeLegacy(data, NO_VERSION, ZERO).value, Decode(Built(Legacy, data)).value)
  {
    var b := Built(Legacy, data);
    var moved := Relocated(Legacy, Padded(data));
    assert b[..LEGACY_SIZE] == moved[0..0 + LEGACY_SIZE];
    assert b[..5] == data[..5];
    assert b[0] == 95 && b[1] == 68;
    assert b[8..12] == LeStore(ENTRY_MAX_SIZE, 4);
    StoredIsLoaded(b, 8, 4);
    assert b[12..14] == data[12..14] && b[6..8] == data[6..8];
  }

  /** The sum of an entry point: of what comes before the intermediate one, of that one, and of the rest. */
  lemma SumOfParts(s: seq<Byte>, length: nat)
    requires V21_SIZE <= length <= |s|
    ensures Sum(s[..length]) == Wrap(Wrap(Sum(s[..IEPS]), Sum(s[IEPS..V21_SIZE])), Sum(s[V21_SIZE..length]))
  {
    assert s[..length] == (s[..IEPS] + s[IEPS..V21_SIZE]) + s[V21_SIZE..length];
    SumOfBoth(s[..IEPS] + s[IEPS..V21_SIZE], s[V21_SIZE..length]);
    SumOfBoth(s[..IEPS], s[IEPS..V21_SIZE]);
  }

  lemma SumOfShort(s: seq<Byte>)
    requires V21_SIZE <= |s|
    ensures Sum(s[..V21_SIZE - 1]) == Wrap(Sum(s[..IEPS]), Sum(s[IEPS..V21_SIZE - 1]))
    ensures Sum(s[IEPS..V21_SIZE]) == Wrap(Sum(s[IEPS..V21_SIZE - 1]), s[V21_SIZE - 1])
  {
    assert s[..V21_SIZE - 1] == s[..IEPS] + s[IEPS..V21_SIZE - 1];
    SumOfBoth(s[..IEPS], s[IEPS..V21_SIZE - 1]);
    assert s[IEPS..V21_SIZE][..LEGACY_SIZE - 1] == s[IEPS..V21_SIZE - 1];
  }

  /** What is summed of an entry point which has lost its last byte. */
  function HeadOfIeps(data: seq<Byte>): Byte
    requires |data| >= V21_SIZE - 1
  {
    Sum(data[IEPS..V21_SIZE - 1])
  }

  lemma V21SumStays(data: seq<Byte>)
    requires V21_SIZE <= |data| <= ENTRY_MAX_SIZE && DecodeV21(data).Some?
    ensures LengthOf(V21, Padded(data)) <= ENTRY_MAX_SIZE
    ensures Sum(Built(V21, data)[..data[5]]) == 0
  {
    hide Sum, Wrap, Sealed;
    var b, length := Built(V21, data), data[5];
    var moved := Relocated(V21, Padded(data));
    assert b[..IEPS] == data[..IEPS] by {
      assert Padded(data)[..IEPS] == data[..IEPS];
    }
    assert b[IEPS..V21_SIZE] == moved[IEPS..IEPS + LEGACY_SIZE];
    var ieps := data[IEPS..V21_SIZE];
    assert Sum(ieps) == 0 by {
      assert ieps[..LEGACY_SIZE] == ieps;
    }
    if length < V21_SIZE {
      SumOfShort(data);
      SumOfShort(b);
      assert b[V21_SIZE - 1] == data[V21_SIZE - 1];
      WrapIsUnique(Sum(data[IEPS..V21_SIZE - 1]), Sum(b[IEPS..V21_SIZE - 1]), b[V21_SIZE - 1]);
    } else {
      assert b[V21_SIZE..length] == data[V21_SIZE..length];
      SumOfParts(data, length);
      SumOfParts(b, length);
    }
  }

  lemma WrapIsUnique(a: Byte, b: Byte, c: Byte)
    requires Wrap(a, c) == Wrap(b, c)
    ensures a == b
  {
  }

  lemma V21IsMoved(data: seq<Byte>)
    requires V21_SIZE <= |data| <= ENTRY_MAX_SIZE && HasAnchor(data, ANCHOR_V21) && DecodeV21(data).Some?
    ensures LengthOf(V21, Padded(data)) <= ENTRY_MAX_SIZE
    ensures Decode(Built(V21, data)).Some? && IsMoved(DecodeV21(data).value, Decode(Built(V21, data)).value)
  {
    hide Sum, Wrap, Sealed, LeStore;
    V21SumStays(data);
    V21FieldsStay(data);
    var b := Built(V21, data);
    assert b[IEPS..V21_SIZE] == Relocated(V21, Padded(data))[IEPS..IEPS + LEGACY_SIZE];
    assert b[IEPS..V21_SIZE][..LEGACY_SIZE] == b[IEPS..V21_SIZE];
    IepsLoads(b, V21_SIZE);
    IepsLoads(data, V21_SIZE);
  }

  /** All the fields are kept, but for the address of the table. */
  lemma V21FieldsStay(data: seq<Byte>)
    requires V21_SIZE - 1 <= |data| <= ENTRY_MAX_SIZE && HasAnchor(data, ANCHOR_V21)
    requires V21_SIZE - 1 <= data[5] <= |data|
    ensures LengthOf(V21, Padded(data)) <= ENTRY_MAX_SIZE
    ensures var b := Built(V21, data);
      && HasAnchor(b, ANCHOR_V21) && !HasAnchor(b, ANCHOR_V30) && b[5] == data[5] && b[6] == data[6] && b[7] == data[7]
      && b[8..10] == data[8..10] && b[10] == data[10]
      && b[22..24] == data[22..24] && b[28..30] == data[28..30]
      && b[V21_SIZE - 1] == (if |data| >= V21_SIZE then data[V21_SIZE - 1] else 0)
      && Load(b[IEPS..V21_SIZE], 8, 4) == ENTRY_MAX_SIZE
  {
    hide Sum, Wrap;
    var b := Built(V21, data);
    assert b[..4] == data[..4] && b[3] == 95;
    var ieps := b[IEPS..V21_SIZE];
    assert ieps[8..12] == LeStore(ENTRY_MAX_SIZE, 4) by {
      assert Stored(Padded(data), IEPS + 8, LeStore(ENTRY_MAX_SIZE, 4))[IEPS + 8..IEPS + 12]
        == LeStore(ENTRY_MAX_SIZE, 4);
    }
    StoredIsLoaded(ieps, 8, 4);
  }

  lemma IepsLoads(data: seq<Byte>, end: nat)
    requires V21_SIZE - 1 <= end <= |data|
    ensures Load(data[IEPS..end], 6, 2) == LeLoad(data[22..24]) && Load(data[IEPS..end], 12, 2) == LeLoad(data[28..30])
  {
    SliceOfSlice(data, IEPS, end, 6, 8);
    SliceOfSlice(data, IEPS, end, 12, 14);
  }

  lemma SliceOfSlice(s: seq<Byte>, a: nat, b: nat, c: nat, d: nat)
    requires a <= b <= |s| && c <= d <= b - a
    ensures s[a..b][c..d] == s[a + c..a + d]
  {
    var part := s[a..b];
    assert forall i | c <= i < d :: part[i] == s[a + i];
  }

  /**
   An entry point cut one byte short: the sum of its intermediate entry point
   has not been checked, and the relocated one is decoded only if it was zero.
   */
  lemma V21ShortIsMoved(data: seq<Byte>)
    requires |data| == V21_SIZE - 1 && HasAnchor(data, ANCHOR_V21) && DecodeV21(data).Some?
    ensures LengthOf(V21, Padded(data)) <= ENTRY_MAX_SIZE
    ensures var b := Built(V21, data);
      && (Decode(b).Some? <==> HeadOfIeps(data) == 0)
      && (Decode(b).Some? ==> IsMoved(DecodeV21(data).value, Decode(b).value))
  {
    hide Sum, Wrap, Sealed, LeStore;
    V21FieldsStay(data);
    var b := Built(V21, data);
    assert b[IEPS..V21_SIZE] == Relocated(V21, Padded(data))[IEPS..IEPS + LEGACY_SIZE];
    assert b[IEPS..V21_SIZE][..LEGACY_SIZE] == b[IEPS..V21_SIZE];
    assert b[..IEPS] == data[..IEPS] by {
      assert Padded(data)[..IEPS] == data[..IEPS];
    }
    IepsLoads(b, V21_SIZE);
    IepsLoads(data, V21_SIZE - 1);
    SumOfShort(b);
    WrapsToZero(Sum(b[IEPS..V21_SIZE - 1]));
    assert data[..V21_SIZE - 1] == data[..IEPS] + data[IEPS..V21_SIZE - 1];
    SumOfBoth(data[..IEPS], data[IEPS..V21_SIZE - 1]);
    HeadDecides(Sum(data[..IEPS]), HeadOfIeps(data));
  }

  lemma WrapsToZero(a: Byte)
    ensures Wrap(a, 0) == 0 <==> a == 0
  {
  }

  lemma HeadDecides(a: Byte, b: Byte)
    requires Wrap(a, b) == 0
    ensures Wrap(a, 0) == 0 <==> b == 0
  {
  }

  /**
   The entry point built for a dump decodes again, into the same but for where
   the table is, unless a byte of the decoded one was missing and its
   intermediate entry point did not sum to zero without it.
   */
  lemma RelocatedIsDecoded(data: seq<Byte>)
    requires Decode(data).Some? && |data| <= ENTRY_MAX_SIZE
    ensures DecodedIsFit(data)
    ensures var kind := Decode(data).value.kind;
      var b := Built(kind, data);
      && (Decode(b).Some? <==> (kind.V21? && |data| < V21_SIZE ==> HeadOfIeps(data) == 0))
      && (Decode(b).Some? ==> IsMoved(Decode(data).value, Decode(b).value))
  {
    hide Built, DecodeV21, DecodeV30, DecodeLegacy;
    KindIsTold(data);
    DecodedIsBuilt(data);
    match Decode(data).value.kind {
      case V30 => V30IsMoved(data);
      case V21 =>
        if |data| < V21_SIZE {
          V21ShortIsMoved(data);
        } else {
          V21IsMoved(data);
        }
      case Legacy => LegacyIsMoved(data);
    }
  }

  predicate DecodedIsFit(data: seq<Byte>) {
    && Decode(data).Some? && |data| <= ENTRY_MAX_SIZE
    && (Decode(data).value.kind.V30? ==> |data| >= V30_SIZE && 6 <= data[6])
    && (Decode(data).value.kind.V21? ==> |data| >= V21_SIZE - 1)
    && LengthOf(Decode(data).value.kind, Padded(data)) <= ENTRY_MAX_SIZE
  }

  lemma KindIsTold(data: seq<Byte>)
    requires Decode(data).Some?
    ensures match Decode(data).value.kind
      case V30 => |data| >= V30_SIZE && HasAnchor(data, ANCHOR_V30) && Decode(data) == DecodeV30(data)
      case V21 => |data| >= V21_SIZE - 1 && HasAnchor(data, ANCHOR_V21) && Decode(data) == DecodeV21(data)
      case Legacy =>
        && |data| >= LEGACY_SIZE && HasAnchor(data, ANCHOR_LEGACY)
        && Decode(data) == DecodeLegacy(data, NO_VERSION, ZERO)
  {
  }

  // Generation

  function Generated(major: Byte, minor: Byte, revision: Byte, length: nat): (r: seq<Byte>)
    ensures |r| == ENTRY_MAX_SIZE
  {
    var fields := ANCHOR_V30 + [0, V30_SIZE, major, minor, revision, 1, 0] + LeStore(length, 4)
      + LeStore(ENTRY_MAX_SIZE, 8);
    Sealed(fields + Zeros(8), 0, V30_SIZE, 5)
  }

  /** Without an entry point, one is made which tells the table behind it. */
  lemma GeneratedIsDecoded(major: Byte, minor: Byte, revision: Byte, length: nat)
    requires length <= MAX_TABLE
    ensures Decode(Generated(major, minor, revision, length))
         == Some(ZERO.(kind := V30, version := Version(major, minor, revision), revision := 1, length := V30_SIZE,
                       address := ENTRY_MAX_SIZE, maxSize := length))
  {
    hide Sum, LeStore;
    var r := Generated(major, minor, revision, length);
    assert r[..5] == ANCHOR_V30;
    assert r[..V30_SIZE] == r[0..0 + V30_SIZE];
    assert r[16..24] == LeStore(ENTRY_MAX_SIZE, 8);
    assert r[12..16] == LeStore(length, 4);
    StoredIsLoaded(r, 16, 8);
    LoadStore(length, 4);
    assert Pow256(4) == 0x1_0000_0000;
    SmallMod(length, Pow256(4));
  }

  // Printed entry points

  /** The 32-bit entry point a table rebuilt from text is printed with, nothing but its fields yet. */
  function FieldsOf(major: Byte, minor: Byte, largest: nat, length: nat, count: nat): (r: seq<Byte>)
    ensures |r| == V21_SIZE
  {
    ANCHOR_V21 + [0, V21_SIZE, major, minor] + LeStore(largest, 2) + Zeros(6)
    + ANCHOR_LEGACY + [0] + LeStore(length, 2) + LeStore(ENTRY_MAX_SIZE, 4) + LeStore(count, 2)
    + [major % 16 * 16 + minor % 16]
  }

  function PrintedV21(major: Byte, minor: Byte, largest: nat, length: nat, count: nat): (r: seq<Byte>)
    ensures |r| == V21_SIZE
  {
    Sealed(Sealed(FieldsOf(major, minor, largest, length, count), IEPS, LEGACY_SIZE, IEPS + 5), 0, V21_SIZE, 4)
  }

  /** It decodes into what it has been printed from, whatever its version. */
  lemma PrintedIsDecoded(major: Byte, minor: Byte, largest: nat, length: nat, count: nat)
    requires largest <= 0xFFFF && length <= 0xFFFF && count <= 0xFFFF
    ensures Decode(PrintedV21(major, minor, largest, length, count))
         == Some(Point(V21, Version(major, minor, 0), 0, V21_SIZE, ENTRY_MAX_SIZE, length, length, count, largest))
  {
    hide Sum, LeStore, LeLoad, Sealed;
    var fields := FieldsOf(major, minor, largest, length, count);
    var inner := Sealed(fields, IEPS, LEGACY_SIZE, IEPS + 5);
    var r := PrintedV21(major, minor, largest, length, count);
    assert r[..4] == ANCHOR_V21 && r[3] == 95;
    assert r[..V21_SIZE] == r[0..0 + V21_SIZE];
    var ieps := r[IEPS..V21_SIZE];
    assert ieps == inner[IEPS..IEPS + LEGACY_SIZE] && ieps[..LEGACY_SIZE] == ieps;
    assert r[8..10] == LeStore(largest, 2);
    assert r[22..24] == LeStore(length, 2) && r[24..28] == LeStore(ENTRY_MAX_SIZE, 4) && r[28..30] == LeStore(count, 2);
    SliceOfSlice(r, IEPS, V21_SIZE, 6, 8);
    SliceOfSlice(r, IEPS, V21_SIZE, 8, 12);
    SliceOfSlice(r, IEPS, V21_SIZE, 12, 14);
    assert ieps[6..8] == LeStore(length, 2) && ieps[8..12] == LeStore(ENTRY_MAX_SIZE, 4)
      && ieps[12..14] == LeStore(count, 2);
    WordIsLoaded(largest);
    WordIsLoaded(length);
    WordIsLoaded(count);
    StoredIsLoaded(ieps, 8, 4);
    assert ieps[14] == major % 16 * 16 + minor % 16;
  }

  lemma WordIsLoaded(n: nat)
    requires n <= 0xFFFF
    ensures LeLoad(LeStore(n, 2)) == n
  {
    LoadStore(n, 2);
    assert Pow256(2) == 0x1_0000;
    SmallMod(n, Pow256(2));
  }

  // Building in place

  /** Bytes of an entry point are written where it lies. */
  method Set(entry: array<Byte>, at: nat, bytes: seq<Byte>)
    requires at + |bytes| <= entry.Length
    modifies entry
    ensures entry[..] == Stored(old(entry[..]), at, bytes)
  {
    for i := 0 to |bytes|
      invariant entry[..] == Stored(old(entry[..]), at, bytes[..i])
    {
      entry[at + i] := bytes[i];
    }
    assert bytes[..|bytes|] == bytes;
  }

  method SetChecksum(entry: array<Byte>, from: nat, length: nat, at: nat)
    requires from <= at < from + length <= entry.Length
    modifies entry
    ensures entry[..] == Sealed(old(entry[..]), from, length, at)
  {
    hide Sum, Wrap, Sealed;
    entry[at] := 0;
    assert entry[..] == old(entry[..])[at := 0];
    assert entry[from..from + length] == entry[..][from..from + length];
    var checksum := CalculateChecksum(entry[from..from + length]);
    entry[at] := checksum;
    assert entry[..] == old(entry[..])[at := checksum];
    SealedBy(old(entry[..]), from, length, at, checksum);
  }

  lemma SealedBy(s: seq<Byte>, from: nat, length: nat, at: nat, c: Byte)
    requires from <= at < from + length <= |s| && Wrap(Sum(s[at := 0][from..from + length]), c) == 0
    ensures Sealed(s, from, length, at) == s[at := c]
  {
    hide Sum;
    ChecksumIsUnique(Sum(s[at := 0][from..from + length]), c);
  }

  lemma ChecksumIsUnique(sum: Byte, c: Byte)
    requires Wrap(sum, c) == 0
    ensures c == (256 - sum) % 256
  {
  }

  method Clear(entry: array<Byte>, from: nat)
    requires from <= entry.Length
    modifies entry
    ensures entry[..] == CutAt(old(entry[..]), from)
  {
    for i := from to entry.Length
      invariant forall k | 0 <= k < entry.Length :: entry[k] == if from <= k < i then 0 else old(entry[k])
    {
      entry[i] := 0;
    }
  }

  /** What is written before the table: the entry point told, relocated, or one which is made. */
  method Build(entry: array<Byte>, told: Option<seq<Byte>>, version: Version, tableLength: nat) returns (ok: bool)
    requires entry.Length == ENTRY_MAX_SIZE
    requires told.Some? ==> Decode(told.value).Some? && |told.value| <= ENTRY_MAX_SIZE
    modifies entry
    ensures ok <==> told.Some? || tableLength <= MAX_TABLE
    ensures told.Some? ==> DecodedIsFit(told.value) && entry[..] == Built(Decode(told.value).value.kind, told.value)
    ensures told.None? && ok ==>
      entry[..] == Generated(version.major % 256, version.minor % 256, version.revision % 256, tableLength)
  {
    hide Sum, LeStore, Sealed, Decode;
    Clear(entry, 0);
    if told.None? {
      if tableLength > MAX_TABLE {
        return false;
      }
      var fields := ANCHOR_V30 + [0, V30_SIZE, version.major % 256, version.minor % 256, version.revision % 256, 1, 0]
                    + LeStore(tableLength, 4) + LeStore(ENTRY_MAX_SIZE, 8);
      Set(entry, 0, fields);
      assert entry[..] == fields + Zeros(8);
      SetChecksum(entry, 0, V30_SIZE, 5);
      return true;
    }
    Set(entry, 0, told.value);
    ghost var data := entry[..];
    assert data == Padded(told.value);
    RelocatedIsDecoded(told.value);
    var length;
    match Decode(told.value).value.kind {
      case V30 =>
        length := entry[6];
        Set(entry, 16, LeStore(ENTRY_MAX_SIZE, 8));
        SetChecksum(entry, 0, length, 5);
      case V21 =>
        length := entry[5];
        if length < V21_SIZE {
          length := V21_SIZE;
        }
        Set(entry, IEPS + 8, LeStore(ENTRY_MAX_SIZE, 4));
        SetChecksum(entry, IEPS, LEGACY_SIZE, IEPS + 5);
      case Legacy =>
        length := LEGACY_SIZE;
        Set(entry, 8, LeStore(ENTRY_MAX_SIZE, 4));
        SetChecksum(entry, 0, LEGACY_SIZE, 5);
    }
    Clear(entry, length);
    return true;
  }

  // Decoding in place

  /** What a context has been told by its entry point. */
  class State {
    var kind: Kind
    var version: Version
    var revision: nat
    var length: nat
    var address: nat
    var maxSize: nat
    var size: nat
    var count: nat
    var entityMax: nat
    var addressSize: nat

    constructor ()
      ensures Told() == ZERO && addressSize == 0
    {
      kind, version := Legacy, NO_VERSION;
      revision, length, address, maxSize, size, count, entityMax, addressSize := 0, 0, 0, 0, 0, 0, 0, 0;
    }

    function Told(): Point
      reads this
    {
      Point(kind, version, revision, length, address, maxSize, size, count, entityMax)
    }

    method ReadLegacy(data: seq<Byte>) returns (ok: bool)
      requires |data| >= LEGACY_SIZE - 1
      modifies this
      ensures var r := DecodeLegacy(data, old(version), old(Told()));
        ok == r.Some? && Told() == if ok then r.value else old(Told())
      ensures addressSize == if ok && old(addressSize) == 0 then 4 else old(addressSize)
    {
      var complete := |data| >= LEGACY_SIZE;
      if complete {
        var checksum := CalculateChecksum(data[..LEGACY_SIZE]);
        if checksum != 0 {
          return false;
        }
      }
      var told: Byte := if complete then data[14] else 0;
      if told != 0 && version == NO_VERSION {
        version := Nibbles(told);
      }
      if addressSize == 0 {
        addressSize := 4;
      }
      length := LEGACY_SIZE;
      count := Load(data, 12, 2);
      address := Load(data, 8, 4);
      maxSize := Load(data, 6, 2);
      size := Load(data, 6, 2);
      return true;
    }

    method ReadV21(data: seq<Byte>) returns (ok: bool)
      requires |data| >= V21_SIZE - 1 && Told() == ZERO.(kind := V21)
      modifies this
      ensures ok == DecodeV21(data).Some? && (ok ==> Told() == DecodeV21(data).value && addressSize == 4)
    {
      hide Sum;
      var entryLength := data[5];
      if entryLength > |data| || entryLength < V21_SIZE - 1 {
        return false;
      }
      var checksum := CalculateChecksum(data[..entryLength]);
      if checksum != 0 {
        return false;
      }
      revision := data[10];
      version := Version(data[6], data[7], 0);
      addressSize := 4;
      entityMax := Load(data, 8, 2);
      var iepsLength := |data| - IEPS;
      if iepsLength > LEGACY_SIZE {
        iepsLength := LEGACY_SIZE;
      }
      assert data[IEPS..IEPS + iepsLength] == data[IEPS..Min(|data|, V21_SIZE)];
      ok := ReadLegacy(data[IEPS..IEPS + iepsLength]);
      if ok {
        length := entryLength;
      }
    }

    method ReadV30(data: seq<Byte>) returns (ok: bool)
      requires |data| >= V30_SIZE && Told() == ZERO.(kind := V30)
      modifies this
      ensures ok == DecodeV30(data).Some? && (ok ==> Told() == DecodeV30(data).value && addressSize == 8)
    {
      var entryLength := data[6];
      if entryLength > |data| || entryLength < V30_SIZE {
        return false;
      }
      var checksum := CalculateChecksum(data[..entryLength]);
      if checksum != 0 {
        return false;
      }
      revision := data[10];
      version := Version(data[7], data[8], data[9]);
      addressSize := 8;
      length := entryLength;
      address := Load(data, 16, 8);
      maxSize := Load(data, 12, 4);
      return true;
    }

    /** The kinds are told by their anchors, the longest of them first. */
    method Read(data: seq<Byte>) returns (ok: bool)
      requires Told() == ZERO && addressSize == 0
      modifies this
      ensures ok == Decode(data).Some? && (ok ==> Told() == Decode(data).value)
      ensures ok ==> addressSize == if Decode(data).value.kind.V30? then 8 else 4
    {
      hide DecodeV30, DecodeV21, Sum;
      if |data| >= V30_SIZE && HasAnchor(data, ANCHOR_V30) {
        kind := V30;
        ok := ReadV30(data);
        V30IsTold(data);
      } else if |data| >= V21_SIZE - 1 && HasAnchor(data, ANCHOR_V21) {
        kind := V21;
        ok := ReadV21(data);
        V21IsTold(data);
      } else if |data| >= LEGACY_SIZE && HasAnchor(data, ANCHOR_LEGACY) {
        kind := Legacy;
        ok := ReadLegacy(data);
      } else {
        return false;
      }
    }
  }

  lemma V30IsTold(data: seq<Byte>)
    requires |data| >= V30_SIZE
    ensures DecodeV30(data).Some? ==> DecodeV30(data).value.kind.V30?
  {
  }

  lemma V21IsTold(data: seq<Byte>)
    requires |data| >= V21_SIZE - 1
    ensures DecodeV21(data).Some? ==> DecodeV21(data).value.kind.V21?
  {
  }

  lemma {:induction false} SumOfZeros(n: nat)
    ensures Sum(Zeros(n)) == 0
  {
    if n > 0 {
      SumOfZeros(n - 1);
      assert Zeros(n)[..n - 1] == Zeros(n - 1);
    }
  }

  /** There is an entry point which decodes, and does not decode any more once it has been built. */
  lemma ShortMayBeLost() returns (data: seq<Byte>)
    ensures Decode(data).Some? && DecodedIsFit(data) && Decode(Built(Decode(data).value.kind, data)).None?
  {
    var base: seq<Byte> := ANCHOR_V21 + [0, 30] + Zeros(10) + [1] + Zeros(13);
    data := Sealed(base, 0, V21_SIZE - 1, 4);
    assert data[..data[5]] == data[0..0 + (V21_SIZE - 1)];
    assert data[..4] == ANCHOR_V21 && data[3] == 95;
    assert data[IEPS..V21_SIZE - 1] == [1] + Zeros(13);
    SumOfBoth([1], Zeros(13));
    SumOfZeros(13);
    SumOfOne(1);
    RelocatedIsDecoded(data);
  }
}
