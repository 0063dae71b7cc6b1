/**
 The text of an IPv6 address (libopendmi/src/attribute.c), read back the way
 section 2.2 of RFC 4291 describes it.
 */
module Ipv6 {
  import opened Wrappers
  import opened Bytes

  const GROUPS: nat := 8

  type Group = g: nat | g < 0x1_0000

  // Groups

  function GroupOf(high: nat, low: nat): (g: Group)
    requires high < 256 && low < 256
  {
    256 * high + low
  }

  function GroupsOf(data: seq<Byte>): (groups: seq<Group>)
    requires |data| == 2 * GROUPS
    ensures |groups| == GROUPS
  {
    seq(GROUPS, i requires 0 <= i < GROUPS => GroupOf(data[2 * i], data[2 * i + 1]))
  }

  function BytesOf(groups: seq<Group>): (data: seq<Byte>)
    ensures |data| == 2 * |groups|
  {
    seq(2 * |groups|, i requires 0 <= i < 2 * |groups| =>
      if i % 2 == 0 then groups[i / 2] / 256 else groups[i / 2] % 256)
  }

  lemma BytesOfGroups(data: seq<Byte>)
    requires |data| == 2 * GROUPS
    ensures BytesOf(GroupsOf(data)) == data
  {
    var groups := GroupsOf(data);
    forall i | 0 <= i < 2 * GROUPS
      ensures BytesOf(groups)[i] == data[i]
    {
      assert groups[i / 2] == GroupOf(data[2 * (i / 2)], data[2 * (i / 2) + 1]);
    }
  }

  // Numbers

  function Digit(d: nat): (c: char)
    requires d < 16
    ensures c != ':' && (c == '0' <==> d == 0)
  {
    "0123456789abcdef"[d]
  }

  function DigitValue(c: char): Option<nat> {
    if '0' <= c <= '9' then Some((c - '0') as nat)
    else if 'a' <= c <= 'f' then Some(10 + (c - 'a') as nat)
    else None
  }

  /** A number with no zeros before it. */
  function Hex(n: nat): (text: string)
    ensures text != [] && (text[0] == '0' <==> n == 0) && (n == 0 ==> |text| == 1)
    ensures forall i | 0 <= i < |text| :: text[i] != ':'
  {
    if n < 16 then [Digit(n)] else Hex(n / 16) + [Digit(n % 16)]
  }

  /** As many as four digits of a group. */
  function HexValue(text: string): (n: Option<nat>)
    decreases |text|
  {
    if text == [] then None
    else
      var last := DigitValue(text[|text| - 1]);
      if last.None? then None
      else if |text| == 1 then last
      else
        var rest := HexValue(text[..|text| - 1]);
        if rest.None? then None else Some(16 * rest.value + last.value)
  }

  function GroupValue(text: string): (g: Option<Group>) {
    var n := HexValue(text);
    if |text| <= 4 && n.Some? && n.value < 0x1_0000 then Some(n.value) else None
  }

  lemma {:induction false} HexIsRead(n: nat)
    ensures HexValue(Hex(n)) == Some(n)
    decreases n
  {
    if n < 16 {
      assert DigitValue(Digit(n)) == Some(n);
    } else {
      var text := Hex(n / 16) + [Digit(n % 16)];
      HexIsRead(n / 16);
      assert text[..|text| - 1] == Hex(n / 16);
      assert DigitValue(Digit(n % 16)) == Some(n % 16);
    }
  }

  lemma HexIsShort(g: Group)
    ensures |Hex(g)| <= 4
  {
    assert Hex(g / 16) == Hex(g / 16);
    assert g / 16 / 16 / 16 < 16;
    assert g >= 16 ==> |Hex(g)| == |Hex(g / 16)| + 1;
    assert g / 16 >= 16 ==> |Hex(g / 16)| == |Hex(g / 16 / 16)| + 1;
    assert g / 16 / 16 >= 16 ==> |Hex(g / 16 / 16)| == |Hex(g / 16 / 16 / 16)| + 1;
  }

  // Lists

  function Joined(groups: seq<Group>): (text: string)
    ensures text == [] <==> groups == []
    ensures text != [] ==> text[0] != ':' && text[|text| - 1] != ':'
  {
    if groups == [] then []
    else if |groups| == 1 then Hex(groups[0])
    else Joined(groups[..|groups| - 1]) + ":" + Hex(groups[|groups| - 1])
  }

  /** The last colon of a text. */
  function LastColon(text: string): (p: Option<nat>)
    ensures p.Some? ==> p.value < |text| && text[p.value] == ':'
    decreases |text|
  {
    if text == [] then None
    else if text[|text| - 1] == ':' then Some(|text| - 1)
    else LastColon(text[..|text| - 1])
  }

  /** Groups with a colon between any two of them. */
  function ReadList(text: string): (groups: Option<seq<Group>>)
    decreases |text|
  {
    var p := LastColon(text);
    var last := GroupValue(if p.None? then text else text[p.value + 1..]);
    if last.None? then None
    else if p.None? then Some([last.value])
    else
      var before := ReadList(text[..p.value]);
      if before.None? then None else Some(before.value + [last.value])
  }

  /** The groups on one side of a gap may be none. */
  function ReadSide(text: string): Option<seq<Group>> {
    if text == [] then Some([]) else ReadList(text)
  }

  /** The first two colons which stand side by side. */
  function FindGap(text: string, from: nat): (p: Option<nat>)
    ensures p.Some? ==> from <= p.value && p.value + 1 < |text|
    decreases |text| - from
  {
    if from + 1 >= |text| then None
    else if text[from] == ':' && text[from + 1] == ':' then Some(from)
    else FindGap(text, from + 1)
  }

  /** A gap stands for all the groups which are missing, one at the least. */
  function Read(text: string): (groups: Option<seq<Group>>)
    ensures groups.Some? ==> |groups.value| == GROUPS
  {
    var gap := FindGap(text, 0);
    if gap.None? then
      var all := ReadList(text);
      if all.Some? && |all.value| == GROUPS then all else None
    else
      var left, right := ReadSide(text[..gap.value]), ReadSide(text[gap.value + 2..]);
      if left.None? || right.None? || |left.value| + |right.value| >= GROUPS then None
      else Some(left.value + seq(GROUPS - |left.value| - |right.value|, _ => 0) + right.value)
  }

  lemma {:induction false} LastColonOf(before: string, after: string)
    requires forall i | 0 <= i < |after| :: after[i] != ':'
    ensures LastColon(before + ":" + after) == Some(|before|)
    decreases |after|
  {
    var text := before + ":" + after;
    if after != [] {
      assert text[..|text| - 1] == before + ":" + after[..|after| - 1];
      LastColonOf(before, after[..|after| - 1]);
    }
  }

  lemma {:induction false} NoColon(text: string)
    requires forall i | 0 <= i < |text| :: text[i] != ':'
    ensures LastColon(text).None?
    decreases |text|
  {
    if text != [] {
      NoColon(text[..|text| - 1]);
    }
  }

  lemma {:induction false} JoinedIsRead(groups: seq<Group>)
    requires groups != []
    ensures ReadList(Joined(groups)) == Some(groups)
    decreases |groups|
  {
    var n := |groups| - 1;
    var last := Hex(groups[n]);
    HexIsRead(groups[n]);
    HexIsShort(groups[n]);
    assert groups == groups[..n] + [groups[n]];
    if n == 0 {
      NoColon(last);
    } else {
      var before := Joined(groups[..n]);
      LastColonOf(before, last);
      assert (before + ":" + last)[..|before|] == before && (before + ":" + last)[|before| + 1..] == last;
      JoinedIsRead(groups[..n]);
    }
  }

  /** Colons of a list stand apart. */
  lemma {:induction false} ColonsAreApart(groups: seq<Group>, p: nat)
    requires p + 1 < |Joined(groups)|
    ensures Joined(groups)[p] != ':' || Joined(groups)[p + 1] != ':'
    decreases |groups|
  {
    if |groups| > 1 {
      var n := |groups| - 1;
      var before := Joined(groups[..n]);
      if p + 1 < |before| {
        ColonsAreApart(groups[..n], p);
      }
    }
  }

  lemma {:induction false} NoGapBefore(text: string, from: nat, p: nat)
    requires from <= p && forall q | from <= q < p && q + 1 < |text| :: text[q] != ':' || text[q + 1] != ':'
    ensures FindGap(text, from) == if p + 1 < |text| then FindGap(text, p) else None
    decreases p - from
  {
    if from < p {
      NoGapBefore(text, from + 1, p);
    }
  }

  lemma {:induction false} JoinedIsLong(groups: seq<Group>)
    requires groups != []
    ensures |Joined(groups)| <= 5 * |groups| - 1
    decreases |groups|
  {
    var n := |groups| - 1;
    HexIsShort(groups[n]);
    if n > 0 {
      JoinedIsLong(groups[..n]);
    }
  }

  // Runs of zeros

  predicate IsZeroRun(groups: seq<Group>, start: nat, length: nat) {
    start + length <= |groups| && forall i | start <= i < start + length :: groups[i] == 0
  }

  /** The first of the longest runs of zeros, if it is of two at least. A run of one stands for none. */
  ghost predicate IsLongest(groups: seq<Group>, start: nat, length: nat) {
    && 1 <= length && (length == 1 ==> start == |groups|) && (length > 1 ==> IsZeroRun(groups, start, length))
    && forall a: nat, n: nat | 1 < n && IsZeroRun(groups, a, n) :: n < length || (n == length && start <= a)
  }

  method FindLongest(groups: seq<Group>) returns (start: nat, length: nat)
    ensures IsLongest(groups, start, length)
  {
    start, length := |groups|, 1;
    var i := 0;
    while i < |groups|
      invariant 0 <= i <= |groups| && 1 <= length
      invariant (length == 1 ==> start == |groups|) && (length > 1 ==> IsZeroRun(groups, start, length))
      invariant length > 1 ==> start + length <= i
      invariant 0 < i < |groups| ==> groups[i - 1] != 0 || groups[i] != 0
      invariant forall a: nat, n: nat | 1 < n && a < i && IsZeroRun(groups, a, n) ::
        n < length || (n == length && start <= a)
      decreases |groups| - i
    {
      var j := i;
      while j < |groups| && groups[j] == 0
        invariant i <= j <= |groups| && IsZeroRun(groups, i, j - i)
      {
        j := j + 1;
      }
      ghost var next := if j > i then j else i + 1;
      RunsUpTo(groups, i, j, next, start, length);
      if j - i > length {
        start, length := i, j - i;
      }
      i := if j > i then j else i + 1;
    }
  }

  lemma RunEnds(groups: seq<Group>, a: nat, n: nat, j: nat)
    requires 0 < n && IsZeroRun(groups, a, n) && a <= j <= |groups| && (j < |groups| ==> groups[j] != 0)
    ensures a + n <= j
  {
  }

  /** Runs which begin before the next place to look at are in the one found, or have been known. */
  lemma RunsUpTo(groups: seq<Group>, i: nat, j: nat, next: nat, start: nat, length: nat)
    requires i <= j <= |groups| && i < |groups| && IsZeroRun(groups, i, j - i) && (j < |groups| ==> groups[j] != 0)
    requires next == if j > i then j else i + 1
    requires 1 <= length && forall a: nat, n: nat | 1 < n && a < i && IsZeroRun(groups, a, n) ::
      n < length || (n == length && start <= a)
    requires length > 1 ==> start + length <= i
    ensures forall a: nat, n: nat | 1 < n && a < next && IsZeroRun(groups, a, n) ::
      if j - i > length then n < j - i || (n == j - i && i <= a) else n < length || (n == length && start <= a)
  {
    forall a: nat, n: nat | 1 < n && a < next && IsZeroRun(groups, a, n)
      ensures if j - i > length then n < j - i || (n == j - i && i <= a) else n < length || (n == length && start <= a)
    {
      if a >= i {
        RunEnds(groups, a, n, j);
      }
    }
  }

  // Text

  function Text(groups: seq<Group>, start: nat, length: nat): string
    requires length > 1 ==> start + length <= |groups|
  {
    if length <= 1 then Joined(groups) else Joined(groups[..start]) + "::" + Joined(groups[start + length..])
  }

  /** What has been written before a group. */
  function TextBefore(groups: seq<Group>, start: nat, length: nat, i: nat): string
    requires i <= |groups| && 1 <= length && (i <= start || start + length <= i)
  {
    if i <= start then Joined(groups[..i]) else Joined(groups[..start]) + "::" + Joined(groups[start + length..i])
  }

  lemma JoinedAppended(groups: seq<Group>, g: Group)
    ensures Joined(groups + [g]) == (if groups == [] then [] else Joined(groups) + ":") + Hex(g)
  {
    assert (groups + [g])[..|groups|] == groups;
  }

  lemma TextGoesOn(groups: seq<Group>, start: nat, length: nat, i: nat)
    requires i < |groups| && 1 <= length && (i < start || start + length <= i)
    ensures TextBefore(groups, start, length, i + 1)
         == TextBefore(groups, start, length, i) + (if i == 0 || i == start + length then [] else ":") + Hex(groups[i])
  {
    hide Joined;
    if i < start {
      assert groups[..i + 1] == groups[..i] + [groups[i]];
      JoinedAppended(groups[..i], groups[i]);
    } else {
      var some := groups[start + length..i];
      assert groups[start + length..i + 1] == some + [groups[i]];
      JoinedAppended(some, groups[i]);
    }
  }

  lemma TextOfGap(groups: seq<Group>, start: nat, length: nat)
    requires start + length <= |groups| && 1 <= length
    ensures TextBefore(groups, start, length, start + length) == TextBefore(groups, start, length, start) + "::"
  {
    assert groups[start + length..start + length] == [];
  }

  lemma TextOfAll(groups: seq<Group>, start: nat, length: nat)
    requires 1 <= length && if length == 1 then start == |groups| else start + length <= |groups|
    ensures TextBefore(groups, start, length, |groups|) == Text(groups, start, length)
  {
    assert groups[..|groups|] == groups;
    if length > 1 {
      assert groups[start + length..|groups|] == groups[start + length..];
    }
  }

  /** Only data of sixteen bytes is an address. */
  method Format(data: seq<Byte>) returns (r: Option<string>, ghost start: nat, ghost length: nat)
    ensures r.Some? <==> |data| == 2 * GROUPS
    ensures r.Some? ==> IsLongest(GroupsOf(data), start, length) && r.value == Text(GroupsOf(data), start, length)
  {
    hide TextBefore, Text;
    start, length := GROUPS, 1;
    if |data| != 2 * GROUPS {
      return None, start, length;
    }
    var groups := GroupsOf(data);
    var first, count := FindLongest(groups);
    start, length := first, count;
    var text: string := [];
    NothingBefore(groups, first, count);
    var i := 0;
    while i < GROUPS
      invariant 0 <= i <= GROUPS && (i <= first || first + count <= i)
      invariant text == TextBefore(groups, first, count, i)
      decreases GROUPS - i
    {
      if i == first {
        TextOfGap(groups, first, count);
        text := text + "::";
        i := i + count;
      } else {
        TextGoesOn(groups, first, count, i);
        if i > 0 && i != first + count {
          text := text + ":";
        }
        text := text + Hex(groups[i]);
        i := i + 1;
      }
    }
    TextOfAll(groups, first, count);
    r := Some(text);
  }

  lemma NothingBefore(groups: seq<Group>, start: nat, length: nat)
    requires 1 <= length
    ensures TextBefore(groups, start, length, 0) == []
  {
    assert groups[..0] == [];
  }

  /**
   The text of any address is read back as the address, whatever run of zeros
   has been left out of it, and fits the longest one there is.
   */
  lemma TextIsRead(groups: seq<Group>, start: nat, length: nat)
    requires |groups| == GROUPS && IsLongest(groups, start, length)
    ensures Read(Text(groups, start, length)) == Some(groups)
    ensures |Text(groups, start, length)| <= 39
  {
    hide Read;
    if length == 1 {
      WholeIsRead(groups);
    } else {
      RestIsRead(groups, start, length);
    }
  }

  lemma WholeIsRead(groups: seq<Group>)
    requires |groups| == GROUPS
    ensures Read(Joined(groups)) == Some(groups) && |Joined(groups)| <= 39
  {
    hide FindGap, ReadList, Joined;
    var text := Joined(groups);
    forall q | 0 <= q < |text| && q + 1 < |text|
      ensures text[q] != ':' || text[q + 1] != ':'
    {
      ColonsAreApart(groups, q);
    }
    NoGapBefore(text, 0, |text|);
    JoinedIsRead(groups);
    JoinedIsLong(groups);
  }

  lemma RestIsRead(groups: seq<Group>, start: nat, length: nat)
    requires |groups| == GROUPS && 1 < length && IsZeroRun(groups, start, length)
    ensures Read(Text(groups, start, length)) == Some(groups) && |Text(groups, start, length)| <= 39
  {
    hide FindGap, ReadList, Joined, ReadSide;
    var left, right := groups[..start], groups[start + length..];
    var text := Text(groups, start, length);
    GapIsFound(left, right);
    SideIsRead(left);
    SideIsRead(right);
    assert text[..|Joined(left)|] == Joined(left) && text[|Joined(left)| + 2..] == Joined(right);
    assert groups == left + seq(length, _ => 0) + right;
  }

  lemma SideIsRead(groups: seq<Group>)
    ensures ReadSide(Joined(groups)) == Some(groups) && |Joined(groups)| <= 5 * |groups|
  {
    if groups != [] {
      JoinedIsRead(groups);
      JoinedIsLong(groups);
    }
  }

  lemma GapIsFound(left: seq<Group>, right: seq<Group>)
    ensures FindGap(Joined(left) + "::" + Joined(right), 0) == Some(|Joined(left)|)
  {
    var a := Joined(left);
    var text := a + "::" + Joined(right);
    forall q | 0 <= q < |a|
      ensures text[q] != ':' || text[q + 1] != ':'
    {
      if q + 1 < |a| {
        ColonsAreApart(left, q);
      }
    }
    NoGapBefore(text, 0, |a|);
  }

  /** What is left out is the first of the longest runs of two zeros or more, and nothing but it is. */
  lemma LongestIsOne(groups: seq<Group>, a: nat, n: nat, b: nat, m: nat)
    requires IsLongest(groups, a, n) && IsLongest(groups, b, m)
    ensures a == b && n == m
  {
  }

  /** Two addresses of the same text are the same. */
  lemma FormattedIsRead(data: seq<Byte>, start: nat, length: nat)
    requires |data| == 2 * GROUPS && IsLongest(GroupsOf(data), start, length)
    ensures var groups := Read(Text(GroupsOf(data), start, length));
      groups.Some? && BytesOf(groups.value) == data
  {
    TextIsRead(GroupsOf(data), start, length);
    BytesOfGroups(data);
  }
}
