/**
 String sets of structures: the printer which rebuilds them, the scanner which
 finds where they end, and the offsets of their strings
 (tools/dmidecode-to-bin.py, libopendmi/src/entity.c, libopendmi/src/lint.c).
 */
module StringSets {
  import opened Wrappers
  import opened Bytes

  // Printing

  /** A string of a set has bytes, and none of them is zero. */
  predicate IsText(s: seq<Byte>) {
    s != [] && forall i | 0 <= i < |s| :: s[i] != 0
  }

  predicate AreTexts(strings: seq<seq<Byte>>) {
    forall k | 0 <= k < |strings| :: IsText(strings[k])
  }

  /** Strings one after another, each with a zero of its own. */
  function Joined(strings: seq<seq<Byte>>): (data: seq<Byte>) {
    if strings == [] then [] else strings[0] + [0] + Joined(strings[1..])
  }

  /** A set ends with one more zero, and a set of no strings has two of them. */
  function PrintSet(strings: seq<seq<Byte>>): (data: seq<Byte>) {
    (if strings == [] then [0] else Joined(strings)) + [0]
  }

  lemma {:induction false} JoinedAppended(strings: seq<seq<Byte>>, last: seq<Byte>)
    ensures Joined(strings + [last]) == Joined(strings) + (last + [0])
  {
    if strings == [] {
      assert Joined([last]) == last + [0] + Joined([]);
    } else {
      JoinedAppended(strings[1..], last);
      assert (strings + [last])[1..] == strings[1..] + [last];
      assert strings[0] + [0] + (Joined(strings[1..]) + (last + [0]))
          == (strings[0] + [0] + Joined(strings[1..])) + (last + [0]);
    }
  }

  /** Bytes the strings of a set take. */
  function SumOfLengths(strings: seq<seq<Byte>>): nat {
    if strings == [] then 0 else |strings[0]| + 1 + SumOfLengths(strings[1..])
  }

  lemma {:induction false} JoinedLength(strings: seq<seq<Byte>>)
    ensures |Joined(strings)| == SumOfLengths(strings)
  {
    if strings != [] {
      JoinedLength(strings[1..]);
    }
  }

  // Scanning

  /** The two zeros a set ends with. */
  predicate IsEnd(data: seq<Byte>, p: nat) {
    p + 1 < |data| && data[p] == 0 && data[p + 1] == 0
  }

  function FindEnd(data: seq<Byte>, p: nat): (end: Option<nat>)
    ensures end.Some? ==> p <= end.value && IsEnd(data, end.value) && forall q | p <= q < end.value :: !IsEnd(data, q)
    ensures end.None? ==> forall q | p <= q :: !IsEnd(data, q)
    decreases |data| - p
  {
    if p + 1 >= |data| then None
    else if IsEnd(data, p) then Some(p)
    else FindEnd(data, p + 1)
  }

  /** Zeros between two positions. */
  function Zeroes(data: seq<Byte>, p: nat, q: nat): nat
    requires p <= q <= |data|
    decreases q - p
  {
    if p == q then 0 else Zeroes(data, p, q - 1) + if data[q - 1] == 0 then 1 else 0
  }

  /** Bytes of a set, and the number of its strings. A set starting with a zero has none. */
  datatype Extent = Extent(length: nat, count: nat)

  function ScanSet(data: seq<Byte>, start: nat): (r: Option<Extent>)
    ensures r.Some? ==> 2 <= r.value.length && start + r.value.length <= |data|
  {
    var end := FindEnd(data, start);
    if end.None? then None
    else Some(Extent(end.value + 2 - start, if data[start] == 0 then 0 else 1 + Zeroes(data, start, end.value)))
  }

  /** Every byte is looked at only after it has been found to be there. */
  method DecodeLength(data: seq<Byte>, start: nat) returns (r: Option<Extent>)
    ensures r == ScanSet(data, start)
  {
    if start > |data| || |data| - start < 2 {
      assert FindEnd(data, start).None?;
      return None;
    }
    var hasStrings := data[start] != 0;
    var pos, count := start, 0;
    while data[pos] != 0 || data[pos + 1] != 0
      invariant start <= pos && pos + 1 < |data|
      invariant FindEnd(data, pos) == FindEnd(data, start)
      invariant count == if hasStrings then Zeroes(data, start, pos) else 0
      decreases |data| - pos
    {
      if data[pos] == 0 && hasStrings {
        count := count + 1;
      }
      pos := pos + 1;
      if pos + 1 == |data| {
        return None;
      }
    }
    if hasStrings {
      count := count + 1;
    }
    return Some(Extent(pos + 2 - start, count));
  }

  method Length(data: seq<Byte>, p: nat) returns (n: nat)
    requires exists q :: p <= q < |data| && data[q] == 0
    ensures p + n < |data| && data[p + n] == 0 && forall i | p <= i < p + n :: data[i] != 0
  {
    n := 0;
    while data[p + n] != 0
      invariant p + n < |data| && forall i | p <= i < p + n :: data[i] != 0
      decreases |data| - (p + n)
    {
      n := n + 1;
    }
  }

  /** A string ends where the next zero is. */
  lemma {:induction false} ZeroesStep(data: seq<Byte>, p: nat, z: nat, q: nat)
    requires p <= z < q <= |data| && data[z] == 0 && forall i | p <= i < z :: data[i] != 0
    ensures Zeroes(data, p, q) == 1 + Zeroes(data, z + 1, q)
    decreases q
  {
    if q == z + 1 {
      NoZeroes(data, p, z);
    } else {
      ZeroesStep(data, p, z, q - 1);
    }
  }

  lemma {:induction false} NoZeroes(data: seq<Byte>, p: nat, q: nat)
    requires p <= q <= |data| && forall i | p <= i < q :: data[i] != 0
    ensures Zeroes(data, p, q) == 0
    decreases q
  {
    if p < q {
      NoZeroes(data, p, q - 1);
    }
  }

  lemma {:induction false} SomeZero(data: seq<Byte>, p: nat, q: nat)
    requires p <= q <= |data| && Zeroes(data, p, q) > 0
    ensures exists z :: p <= z < q && data[z] == 0
    decreases q
  {
    if data[q - 1] != 0 {
      SomeZero(data, p, q - 1);
    }
  }

  lemma SliceWithZero(data: seq<Byte>, a: nat, b: nat, z: nat)
    requires a <= b <= z < |data| && data[z] == 0
    ensures data[a..b] + (data[b..z] + [0]) == data[a..z + 1]
  {
    assert data[a..z + 1] == data[a..b] + data[b..z] + [data[z]];
  }

  lemma NothingJoined()
    ensures Joined([]) == []
  {
  }

  lemma EndOfSet(data: seq<Byte>, start: nat)
    requires ScanSet(data, start).Some?
    ensures var extent := ScanSet(data, start).value;
      var end := start + extent.length - 2;
      && end + 1 < |data| && data[end] == 0 && data[end + 1] == 0
      && (forall q | start <= q < end :: !IsEnd(data, q))
      && (extent.count == 0 <==> data[start] == 0)
      && (extent.count != 0 ==> extent.count == 1 + Zeroes(data, start, end))
  {
  }

  /** A string of a set ends at its last zero, or another one follows. */
  lemma StringEnds(data: seq<Byte>, p: nat, z: nat, end: nat)
    requires p <= z && p <= end && end + 1 < |data| && data[end] == 0 && z < |data| && data[z] == 0
    requires forall i | p <= i < z :: data[i] != 0
    requires forall q | p <= q < end :: !IsEnd(data, q)
    ensures z <= end
    ensures z < end ==> data[z + 1] != 0 && Zeroes(data, p, end) == 1 + Zeroes(data, z + 1, end)
    ensures z == end ==> Zeroes(data, p, end) == 0
  {
    assert z <= end;
    if z < end {
      ZeroesStep(data, p, z, end);
      assert !IsEnd(data, z);
    } else {
      NoZeroes(data, p, end);
    }
  }

  /** Strings of a set are found where their zeros are: printed again, they are its bytes. */
  method DecodeStrings(data: seq<Byte>, start: nat) returns (strings: seq<seq<Byte>>)
    requires ScanSet(data, start).Some?
    ensures var extent := ScanSet(data, start).value;
      && |strings| == extent.count && AreTexts(strings)
      && (data[start] != 0 ==> PrintSet(strings) == data[start..start + extent.length])
  {
    hide IsEnd, Zeroes, Joined;
    var extent := ScanSet(data, start).value;
    ghost var end := start + extent.length - 2;
    EndOfSet(data, start);
    assert Joined([]) == data[start..start] by {
      NothingJoined();
    }
    strings := [];
    var ptr := start;
    while |strings| < extent.count
      invariant start <= ptr <= end + 1 && AreTexts(strings) && |strings| <= extent.count
      invariant extent.count != 0 ==> (ptr == end + 1 <==> |strings| == extent.count)
      invariant extent.count != 0 && ptr <= end ==>
        data[ptr] != 0 && Zeroes(data, ptr, end) + 1 + |strings| == extent.count
      invariant extent.count != 0 ==> Joined(strings) == data[start..ptr]
      decreases extent.count - |strings|
    {
      assert data[end] == 0 && ptr <= end;
      var n := Length(data, ptr);
      var z := ptr + n;
      JoinedAppended(strings, data[ptr..z]);
      SliceWithZero(data, start, ptr, z);
      StringEnds(data, ptr, z, end);
      strings := strings + [data[ptr..z]];
      ptr := z + 1;
    }
    if extent.count != 0 {
      assert data[start..end + 1] + [0] == data[start..end + 2];
    }
  }

  // Round trips

  /** Different strings are printed differently. */
  lemma {:induction false} PrintedOnce(a: seq<seq<Byte>>, b: seq<seq<Byte>>)
    requires AreTexts(a) && AreTexts(b) && Joined(a) == Joined(b)
    ensures a == b
  {
    if a == [] || b == [] {
      JoinedLength(a);
      JoinedLength(b);
    } else {
      FirstIsSame(a[0], Joined(a[1..]), b[0], Joined(b[1..]));
      PrintedOnce(a[1..], b[1..]);
      assert a == [a[0]] + a[1..] && b == [b[0]] + b[1..];
    }
  }

  lemma FirstIsSame(a: seq<Byte>, ra: seq<Byte>, b: seq<Byte>, rb: seq<Byte>)
    requires (forall i | 0 <= i < |a| :: a[i] != 0) && (forall i | 0 <= i < |b| :: b[i] != 0)
    requires a + [0] + ra == b + [0] + rb
    ensures a == b && ra == rb
  {
    var whole := a + [0] + ra;
    assert whole[|a|] == 0 && whole[|b|] == 0;
    assert forall i | 0 <= i < |a| :: whole[i] == a[i];
    assert forall i | 0 <= i < |b| :: whole[i] == b[i];
    assert !(|a| < |b|) && !(|b| < |a|);
    assert a == whole[..|a|] == b;
    assert ra == whole[|a| + 1..] == rb;
  }

  /** The set of a structure which has been printed ends where it has been printed to. */
  lemma {:induction false} PrintedEnds(strings: seq<seq<Byte>>, before: seq<Byte>, after: seq<Byte>)
    requires AreTexts(strings)
    ensures var data := before + PrintSet(strings) + after;
      FindEnd(data, |before|) == Some(|before| + |PrintSet(strings)| - 2)
  {
    var data := before + PrintSet(strings) + after;
    if strings == [] {
      assert IsEnd(data, |before|);
    } else {
      var body := Joined(strings);
      JoinedEnds(strings);
      var end := |before| + |body| - 1;
      assert data[end] == body[|body| - 1] && data[end + 1] == PrintSet(strings)[|body|];
      forall q | |before| <= q < end
        ensures !IsEnd(data, q)
      {
        NoPairInside(strings, q - |before|);
        assert data[q] == body[q - |before|] && data[q + 1] == body[q + 1 - |before|];
      }
      FirstEnd(data, |before|, end);
    }
  }

  lemma {:induction false} FirstEnd(data: seq<Byte>, p: nat, end: nat)
    requires p <= end && IsEnd(data, end) && forall q | p <= q < end :: !IsEnd(data, q)
    ensures FindEnd(data, p) == Some(end)
    decreases end - p
  {
    if p < end {
      FirstEnd(data, p + 1, end);
    }
  }

  lemma {:induction false} JoinedEnds(strings: seq<seq<Byte>>)
    requires strings != [] && AreTexts(strings)
    ensures |Joined(strings)| >= 2 && Joined(strings)[|Joined(strings)| - 1] == 0 && Joined(strings)[0] != 0
  {
    if |strings| > 1 {
      JoinedEnds(strings[1..]);
    } else {
      assert Joined(strings) == strings[0] + [0] + [];
    }
  }

  /** No two zeros stand side by side in the strings of a set. */
  lemma {:induction false} NoPairInside(strings: seq<seq<Byte>>, q: nat)
    requires AreTexts(strings) && q + 1 < |Joined(strings)|
    ensures Joined(strings)[q] != 0 || Joined(strings)[q + 1] != 0
  {
    var first, rest := strings[0] + [0], Joined(strings[1..]);
    assert Joined(strings) == first + rest;
    if q >= |first| {
      NoPairInside(strings[1..], q - |first|);
    } else if q + 1 == |first| {
      JoinedEnds(strings[1..]);
    }
  }

  /** A structure: its formatted area, and the strings after it. */
  function Encode(formatted: seq<Byte>, strings: seq<seq<Byte>>): seq<Byte> {
    formatted + PrintSet(strings)
  }

  /** Parsing undoes printing: the set is as long as it has been printed, and has as many strings. */
  lemma PrintedIsScanned(formatted: seq<Byte>, strings: seq<seq<Byte>>, after: seq<Byte>)
    requires AreTexts(strings)
    ensures ScanSet(Encode(formatted, strings) + after, |formatted|) == Some(Extent(|PrintSet(strings)|, |strings|))
    ensures strings != [] ==> |PrintSet(strings)| == SumOfLengths(strings) + 1
  {
    var data := Encode(formatted, strings) + after;
    assert data == formatted + PrintSet(strings) + after;
    PrintedEnds(strings, formatted, after);
    JoinedLength(strings);
    if strings != [] {
      JoinedEnds(strings);
      assert data[|formatted|] == Joined(strings)[0];
      CountsStrings(strings, formatted, [0] + after);
      assert data == formatted + Joined(strings) + ([0] + after);
    }
  }

  lemma Regrouped(before: seq<Byte>, first: seq<Byte>, rest: seq<Byte>, after: seq<Byte>)
    ensures before + (first + rest) + after == (before + first) + rest + after
  {
  }

  lemma FirstOfJoined(before: seq<Byte>, first: seq<Byte>, rest: seq<Byte>, after: seq<Byte>)
    requires IsText(first)
    ensures var data, z := before + ((first + [0]) + rest) + after, |before| + |first|;
      data[z] == 0 && forall i | |before| <= i < z :: data[i] != 0
  {
    var data := before + ((first + [0]) + rest) + after;
    assert forall i | |before| <= i < |before| + |first| :: data[i] == first[i - |before|];
  }

  lemma {:induction false} CountsStrings(strings: seq<seq<Byte>>, before: seq<Byte>, after: seq<Byte>)
    requires AreTexts(strings) && strings != []
    ensures var data := before + Joined(strings) + after;
      |before| < |before| + |Joined(strings)| - 1 <= |data|
      && 1 + Zeroes(data, |before|, |before| + |Joined(strings)| - 1) == |strings|
  {
    hide Joined, Zeroes;
    var z, end := |before| + |strings[0]|, |before| + |Joined(strings)| - 1;
    var data, rest := before + Joined(strings) + after, Joined(strings[1..]);
    JoinedParts(strings);
    FirstOfJoined(before, strings[0], rest, after);
    if |strings| == 1 {
      NoZeroes(data, |before|, end);
    } else {
      JoinedEnds(strings[1..]);
      ZeroesStep(data, |before|, z, end);
      CountsStrings(strings[1..], before + (strings[0] + [0]), after);
      Regrouped(before, strings[0] + [0], rest, after);
    }
  }

  lemma JoinedParts(strings: seq<seq<Byte>>)
    requires strings != []
    ensures Joined(strings) == (strings[0] + [0]) + Joined(strings[1..])
    ensures |strings| == 1 ==> Joined(strings[1..]) == []
  {
  }

  /** What is found of a printed set are the strings it has been printed from. */
  lemma PrintedIsDecoded(formatted: seq<Byte>, strings: seq<seq<Byte>>, after: seq<Byte>, found: seq<seq<Byte>>)
    requires AreTexts(strings) && AreTexts(found) && |found| == |strings|
    requires var data := Encode(formatted, strings) + after;
      data[|formatted|] != 0 ==> PrintSet(found) == data[|formatted|..|formatted| + |PrintSet(strings)|]
    ensures found == strings
  {
    var data := Encode(formatted, strings) + after;
    if strings != [] {
      JoinedEnds(strings);
      assert data[|formatted|] == Joined(strings)[0];
      assert data[|formatted|..|formatted| + |PrintSet(strings)|] == PrintSet(strings);
      assert Joined(found) == PrintSet(found)[..|PrintSet(found)| - 1] == Joined(strings);
      PrintedOnce(found, strings);
    }
  }

  // Offsets

  /** Where a string of a set begins. */
  method StringOffset(base: nat, strings: seq<seq<Byte>>, number: nat) returns (offset: Option<nat>)
    ensures offset.Some? <==> 1 <= number <= |strings|
    ensures offset.Some? ==> offset.value == base + SumOfLengths(strings[..number - 1])
  {
    if number == 0 || number > |strings| {
      return None;
    }
    var sum, i := base, 0;
    while i + 1 < number
      invariant 0 <= i < number && sum == base + SumOfLengths(strings[..i])
    {
      SumAppended(strings[..i], strings[i]);
      assert strings[..i + 1] == strings[..i] + [strings[i]];
      sum := sum + |strings[i]| + 1;
      i := i + 1;
    }
    return Some(sum);
  }

  lemma {:induction false} SumAppended(strings: seq<seq<Byte>>, last: seq<Byte>)
    ensures SumOfLengths(strings + [last]) == SumOfLengths(strings) + |last| + 1
  {
    if strings == [] {
      assert SumOfLengths([last]) == |last| + 1 + SumOfLengths([]);
    } else {
      SumAppended(strings[1..], last);
      assert (strings + [last])[1..] == strings[1..] + [last];
    }
  }

  /** The offset told is where the string is stored, with its zero behind it. */
  lemma {:induction false} StoredAt(strings: seq<seq<Byte>>, number: nat)
    requires 1 <= number <= |strings|
    ensures var offset := SumOfLengths(strings[..number - 1]);
      && offset + |strings[number - 1]| < |Joined(strings)|
      && Joined(strings)[offset..offset + |strings[number - 1]|] == strings[number - 1]
      && Joined(strings)[offset + |strings[number - 1]|] == 0
  {
    var first, rest := strings[0] + [0], Joined(strings[1..]);
    assert Joined(strings) == first + rest;
    if number == 1 {
      assert strings[..0] == [];
      assert first[..|strings[0]|] == strings[0];
    } else {
      StoredAt(strings[1..], number - 1);
      assert strings[..number - 1][1..] == strings[1..][..number - 2];
      var offset, s := SumOfLengths(strings[1..][..number - 2]), strings[number - 1];
      assert rest[offset..offset + |s|] == (first + rest)[|first| + offset..|first| + offset + |s|];
    }
  }
}
