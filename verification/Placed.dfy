/**
 Where the table holds what has been decoded of it: strings of structures, the
 texts made of them, and bodies (libopendmi/src/entity.c,
 libopendmi/src/anonymize.c).
 */
module Placed {
  import opened Wrappers
  import opened Bytes
  import opened StringSets
  import opened Tables
  import opened Anonymization
  import F = Schema
  import S = Structure

  // Strings where they stand

  /** A string starts after the strings before it, each with its zero. */
  function EntryAt(start: nat, strings: seq<seq<Byte>>, i: nat): Entry
    requires i < |strings|
  {
    Entry(start + SumOfLengths(strings[..i]), |strings[i]|, i)
  }

  function EntriesOf(start: nat, strings: seq<seq<Byte>>): (entries: seq<Entry>)
    ensures |entries| == |strings|
  {
    seq(|strings|, i requires 0 <= i < |strings| => EntryAt(start, strings, i))
  }

  /** Strings of a structure: the bytes of its set are what they are printed as. */
  predicate AreStrings(source: seq<Byte>, s: Structure, strings: seq<seq<Byte>>) {
    && AreTexts(strings) && s.End() <= |source|
    && (strings != [] ==> PrintSet(strings) == source[s.StringsAt()..s.End()])
  }

  lemma {:induction false} LengthsInOrder(strings: seq<seq<Byte>>, i: nat, j: nat)
    requires i < j <= |strings|
    ensures SumOfLengths(strings[..i]) + |strings[i]| < SumOfLengths(strings[..j])
    decreases j
  {
    assert strings[..j] == strings[..j - 1] + [strings[j - 1]];
    SumAppended(strings[..j - 1], strings[j - 1]);
    if i < j - 1 {
      LengthsInOrder(strings, i, j - 1);
    }
  }

  /** The bytes an entry tells are those of its string, and a zero stands behind them. */
  lemma EntryIsPlaced(source: seq<Byte>, s: Structure, strings: seq<seq<Byte>>, i: nat)
    requires AreStrings(source, s, strings) && i < |strings|
    ensures var e := EntryAt(s.StringsAt(), strings, i);
      IsPlaced(source, s, e) && source[e.start..e.start + e.length] == strings[i]
  {
    hide Joined, SumOfLengths;
    var e := EntryAt(s.StringsAt(), strings, i);
    var printed, offset := PrintSet(strings), SumOfLengths(strings[..i]);
    StoredAt(strings, i + 1);
    assert forall p | 0 <= p < |printed| :: printed[p] == source[s.StringsAt() + p];
    assert Joined(strings)[offset..offset + e.length] == printed[offset..offset + e.length];
    assert source[e.start..e.start + e.length] == printed[offset..offset + e.length];
    assert source[e.start + e.length] == printed[offset + e.length] == 0;
    forall p | e.start <= p < e.start + e.length
      ensures source[p] != 0
    {
      assert source[p] == source[e.start..e.start + e.length][p - e.start] == strings[i][p - e.start];
    }
  }

  lemma EntriesArePlaced(source: seq<Byte>, s: Structure, strings: seq<seq<Byte>>)
    requires AreStrings(source, s, strings)
    ensures AreEntries(source, s, EntriesOf(s.StringsAt(), strings))
  {
    hide AreStrings, IsPlaced;
    var entries := EntriesOf(s.StringsAt(), strings);
    forall i | 0 <= i < |entries|
      ensures IsPlaced(source, s, entries[i])
    {
      EntryIsPlaced(source, s, strings, i);
    }
    forall i, j | 0 <= i < j < |entries|
      ensures entries[i].start + entries[i].length < entries[j].start
    {
      LengthsInOrder(strings, i, j);
    }
  }

  // Trimmed texts

  lemma {:induction false} TrimmedLeftStands(text: seq<Byte>)
    ensures |F.TrimmedLeft(text)| <= |text| && text[|text| - |F.TrimmedLeft(text)|..] == F.TrimmedLeft(text)
  {
    if text != [] && F.IsSpace(text[0]) {
      TrimmedLeftStands(text[1..]);
    }
  }

  lemma {:induction false} TrimmedRightStands(text: seq<Byte>)
    ensures |F.TrimmedRight(text)| <= |text| && text[..|F.TrimmedRight(text)|] == F.TrimmedRight(text)
  {
    if text != [] && F.IsSpace(text[|text| - 1]) {
      TrimmedRightStands(text[..|text| - 1]);
    }
  }

  /** A string holds the text which is made of it. */
  lemma TrimmedStands(text: seq<Byte>) returns (p: nat)
    ensures p + |F.Trimmed(text)| <= |text| && text[p..p + |F.Trimmed(text)|] == F.Trimmed(text)
  {
    var left := F.TrimmedLeft(text);
    TrimmedLeftStands(text);
    TrimmedRightStands(left);
    p := |text| - |left|;
    assert text[p..p + |F.Trimmed(text)|] == text[p..][..|F.Trimmed(text)|];
  }

  lemma {:induction false} FoundBefore(source: seq<Byte>, text: seq<Byte>, p: nat, q: nat, end: nat)
    requires p <= q && q + |text| <= end <= |source| && Occurs(source, text, q)
    ensures FindText(source, text, p, end).Some?
    decreases q - p
  {
    if !Occurs(source, text, p) {
      FoundBefore(source, text, p + 1, q, end);
    }
  }

  lemma SliceOfSlice(data: seq<Byte>, a: nat, part: seq<Byte>, p: nat, m: nat)
    requires p + m <= |part| && a + |part| <= |data| && part == data[a..a + |part|]
    ensures data[a + p..a + p + m] == part[p..p + m]
  {
    var slice := data[a + p..a + p + m];
    assert forall i | 0 <= i < m :: slice[i] == part[p + i];
  }

  lemma TextStands(source: seq<Byte>, s: Structure, strings: seq<seq<Byte>>, i: nat) returns (q: nat)
    requires AreStrings(source, s, strings) && i < |strings|
    ensures var e, text := EntryAt(s.StringsAt(), strings, i), F.Trimmed(strings[i]);
      e.start <= q && q + |text| <= e.start + e.length < |source| && Occurs(source, text, q)
  {
    hide AreStrings, F.Trimmed, SumOfLengths;
    var e := EntryAt(s.StringsAt(), strings, i);
    EntryIsPlaced(source, s, strings, i);
    var p := TrimmedStands(strings[i]);
    SliceOfSlice(source, e.start, strings[i], p, |F.Trimmed(strings[i])|);
    q := e.start + p;
  }

  /** The text of a string is found where the table holds the string. */
  lemma TextIsFound(source: seq<Byte>, s: Structure, strings: seq<seq<Byte>>, i: nat)
    requires AreStrings(source, s, strings) && i < |strings|
    ensures var e := EntryAt(s.StringsAt(), strings, i);
      && e.start + e.length <= |source|
      && FindText(source, F.Trimmed(strings[i]), e.start, e.start + e.length).Some?
  {
    hide AreStrings, FindText, F.Trimmed;
    var q := TextStands(source, s, strings, i);
    var e := EntryAt(s.StringsAt(), strings, i);
    FoundBefore(source, F.Trimmed(strings[i]), e.start, q, e.start + e.length);
  }

  lemma {:induction false} EntryIsFound(entries: seq<Entry>, i: nat)
    requires i < |entries| && forall l | 0 <= l < |entries| :: entries[l].pretty == l + entries[0].pretty
    ensures FindEntry(entries, entries[i].pretty) == Some(entries[i])
    decreases i
  {
    if i > 0 {
      EntryIsFound(entries[1..], i - 1);
    }
  }

  /** Where a string first holds the text made of it. */
  function TextPlace(source: seq<Byte>, s: Structure, strings: seq<seq<Byte>>, i: nat): (q: nat)
    requires AreStrings(source, s, strings) && i < |strings|
    ensures var e, text := EntryAt(s.StringsAt(), strings, i), F.Trimmed(strings[i]);
      && s.StringsAt() <= e.start <= q && q + |text| <= e.start + e.length < s.End() <= |source|
      && Occurs(source, text, q) && FindText(source, text, e.start, e.start + e.length) == Some(q)
  {
    var e := EntryAt(s.StringsAt(), strings, i);
    EntryIsPlaced(source, s, strings, i);
    TextIsFound(source, s, strings, i);
    FindText(source, F.Trimmed(strings[i]), e.start, e.start + e.length).value
  }

  /** The private text of a structure's string is written over where the table holds it. */
  lemma TextIsReplaced(source: seq<Byte>, table: seq<Byte>, s: Structure, strings: seq<seq<Byte>>, i: nat,
                       replacement: seq<Byte>)
    requires AreStrings(source, s, strings) && i < |strings| && |table| == |source|
    requires |replacement| == |F.Trimmed(strings[i])|
    ensures var entries := EntriesOf(s.StringsAt(), strings);
      && (forall l | 0 <= l < |entries| :: entries[l].start + entries[l].length <= |source|)
      && RawReplaced(source, table, entries, i, F.Trimmed(strings[i]), replacement)
         == Overwrite(table, TextPlace(source, s, strings, i), replacement)
  {
    hide AreStrings, FindText, F.Trimmed, FindEntry;
    var entries := EntriesOf(s.StringsAt(), strings);
    EntriesArePlaced(source, s, strings);
    EntryIsFound(entries, i);
    TextIsFound(source, s, strings, i);
  }

  /** A text which none of the strings has been made into is written over nowhere. */
  lemma NoTextIsReplaced(source: seq<Byte>, table: seq<Byte>, s: Structure, strings: seq<seq<Byte>>, text: seq<Byte>,
                         replacement: seq<Byte>)
    requires AreStrings(source, s, strings) && |table| == |source| && |replacement| == |text|
    ensures var entries := EntriesOf(s.StringsAt(), strings);
      && (forall l | 0 <= l < |entries| :: entries[l].start + entries[l].length <= |source|)
      && RawReplaced(source, table, entries, |strings|, text, replacement) == table
  {
    hide AreStrings, FindText, FindEntry;
    EntriesArePlaced(source, s, strings);
    NoEntryIsFound(EntriesOf(s.StringsAt(), strings), |strings|);
  }

  lemma {:induction false} NoEntryIsFound(entries: seq<Entry>, pretty: nat)
    requires forall l | 0 <= l < |entries| :: entries[l].pretty != pretty
    ensures FindEntry(entries, pretty).None?
  {
    if entries != [] {
      NoEntryIsFound(entries[1..], pretty);
    }
  }

  // Structures

  lemma HandleIsLoaded(body: seq<Byte>)
    requires |body| >= HEADER_SIZE
    ensures LeLoad(body[2..4]) == HandleOf(body[2], body[3])
  {
    assert body[2..4] == [body[2], body[3]];
    assert body[2..4][1..] == [body[3]] && [body[3]][1..] == [];
    assert LeLoad([body[3]]) == body[3] + 256 * LeLoad([]);
  }

  /** The structure as the encoder takes it. */
  function EntityOf(source: seq<Byte>, s: Structure, strings: seq<seq<Byte>>): (e: S.Entity)
    requires CreateAt(source, s.offset) == Created(s)
    ensures S.IsCreated(e) && e.body == source[s.offset..s.StringsAt()]
  {
    var body := source[s.offset..s.StringsAt()];
    HandleIsLoaded(body);
    S.Entity(s.kind, s.handle, body, seq(|strings|, i requires 0 <= i < |strings| => Some(strings[i])))
  }
}
