/**
 What has become of every byte of an anonymized table, and of the values which
 have been private (libopendmi/src/anonymize.c).
 */
module Replacements {
  import opened Wrappers
  import opened Bytes
  import opened Tables
  import opened Anonymization
  import opened Placed
  import opened Plans
  import F = Schema

  // Bytes

  predicate WritesAt(plan: Plan, step: Step, p: nat)
    requires IsStep(plan, step)
  {
    var w := WrittenBy(plan, step);
    w.Some? && w.value.0 <= p < w.value.0 + |w.value.1|
  }

  function ByteOf(plan: Plan, step: Step, p: nat): Byte
    requires IsStep(plan, step) && WritesAt(plan, step, p)
  {
    var w := WrittenBy(plan, step).value;
    w.1[p - w.0]
  }

  /** The byte the last of the steps writing it has written, or the one there has been. */
  function LastWrite(plan: Plan, steps: seq<Step>, p: nat): Byte
    requires plan.Valid() && AreInside(plan, steps) && p < |plan.source|
  {
    if steps == [] then plan.source[p]
    else
      var n := |steps| - 1;
      if WritesAt(plan, steps[n], p) then ByteOf(plan, steps[n], p) else LastWrite(plan, steps[..n], p)
  }

  lemma {:induction false} LastIsWritten(plan: Plan, steps: seq<Step>, p: nat)
    requires plan.Valid() && AreInside(plan, steps) && p < |plan.source| && AllTaken(plan, steps).Some?
    ensures AllTaken(plan, steps).value.table[p] == LastWrite(plan, steps, p)
    decreases |steps|
  {
    hide WrittenBy, ValuesAfter, Fails, Plan.Valid, IsInside;
    if steps != [] {
      LastIsWritten(plan, steps[..|steps| - 1], p);
    }
  }

  /**
   Every byte of the outcome is the one last written by a step, or a byte of a
   replacement standing where the search has found the value.
   */
  lemma FinishedAt(plan: Plan, steps: seq<Step>, p: nat)
    requires plan.Valid() && AreInside(plan, steps) && p < |plan.source| && Finished(plan, steps).Some?
    ensures var run := Finished(plan, steps).value;
      || run.table[p] == LastWrite(plan, steps, p)
      || StandsAt(plan.source, run.values, plan.structures, plan.Entries(), run.table[p], p)
  {
    hide AllTaken, LastWrite, Plan.Valid, AllSearched, StandsAt, AreInside;
    var taken := AllTaken(plan, steps).value;
    LastIsWritten(plan, steps, p);
    plan.EntriesAreWithin();
    AllSearchedAt(plan.source, taken.values, plan.structures, plan.Entries(), |plan.structures|, taken.table, p);
  }

  /** What a step has written is still there unless a later one has written the byte. */
  lemma {:induction false} LastOf(plan: Plan, steps: seq<Step>, i: nat, p: nat) returns (j: nat)
    requires plan.Valid() && AreInside(plan, steps) && i < |steps| && p < |plan.source|
    requires WritesAt(plan, steps[i], p)
    ensures i <= j < |steps| && WritesAt(plan, steps[j], p) && LastWrite(plan, steps, p) == ByteOf(plan, steps[j], p)
    ensures forall l | j < l < |steps| :: !WritesAt(plan, steps[l], p)
    decreases |steps|
  {
    hide WrittenBy, Plan.Valid, IsInside, WritesAt, ByteOf;
    var n := |steps| - 1;
    if WritesAt(plan, steps[n], p) {
      j := n;
    } else {
      j := LastOf(plan, steps[..n], i, p);
    }
  }

  // Places

  /** A place belongs to one structure. */
  lemma OneStructure(plan: Plan, k: nat, l: nat, p: nat)
    requires plan.Valid() && k < |plan.structures| && l < |plan.structures|
    requires plan.structures[k].offset <= p < plan.structures[k].End()
    requires plan.structures[l].offset <= p < plan.structures[l].End()
    ensures k == l
  {
    hide AreStrings, CreateAt, Tiles;
    TilesInOrder(plan.structures, 0, EndOf(plan.structures, 0));
  }

  /** Binaries and encodings are written in bodies. */
  lemma BodyIsWritten(plan: Plan, step: Step, p: nat)
    requires IsStep(plan, step) && (step.Binary? || step.Members?) && WritesAt(plan, step, p)
    ensures plan.structures[step.k].offset <= p < plan.structures[step.k].StringsAt()
    ensures p < plan.structures[step.k].End() <= |plan.source|
  {
    hide AreStrings, CreateAt, Tiles, Encoded;
    StructureIsWithin(plan, step.k);
  }

  /** Texts are written in the strings they have been made of. */
  lemma TextIsInString(plan: Plan, step: Step, p: nat)
    requires IsStep(plan, step) && step.Text? && WritesAt(plan, step, p)
    ensures IsOfString(plan, step) && IsTaken(plan, step)
    ensures var s, e := plan.structures[step.k], plan.Entries()[step.k][step.number];
      && s.offset <= s.StringsAt() <= e.start <= p < e.start + e.length < s.End() <= |plan.source|
  {
    hide AreStrings, CreateAt, Tiles;
    assert plan.Entries()[step.k][step.number]
        == EntryAt(plan.structures[step.k].StringsAt(), plan.strings[step.k], step.number);
  }

  /** Whatever is written where a text has been written is the text of the same string, and so the same bytes. */
  lemma TextIsSame(plan: Plan, a: Step, b: Step, p: nat)
    requires IsStep(plan, a) && IsStep(plan, b) && a.Text? && WritesAt(plan, a, p) && WritesAt(plan, b, p)
    ensures ByteOf(plan, a, p) == ByteOf(plan, b, p)
  {
    hide AreStrings, CreateAt, Tiles, Plan.Valid;
    TextIsInString(plan, a, p);
    if b.Binary? || b.Members? {
      BodyIsWritten(plan, b, p);
      OneStructure(plan, a.k, b.k, p);
      assert false;
    } else {
      assert b.Text?;
      TextIsInString(plan, b, p);
      OneStructure(plan, a.k, b.k, p);
      plan.EntriesAreWithin();
      OneEntry(plan.source, plan.structures[a.k], plan.Entries()[a.k], a.number, b.number, p);
    }
  }

  lemma OneEntry(source: seq<Byte>, s: Structure, entries: seq<Entry>, i: nat, j: nat, p: nat)
    requires AreEntries(source, s, entries) && i < |entries| && j < |entries|
    requires entries[i].start <= p < entries[i].start + entries[i].length
    requires entries[j].start <= p < entries[j].start + entries[j].length
    ensures i == j
  {
  }

  // Texts

  /**
   The private text of a string, however short, is written over where the
   string holds it: every byte of it is the one of its replacement, or one of a
   value found there by the search.
   */
  lemma TextIsWritten(plan: Plan, steps: seq<Step>, i: nat, p: nat)
    requires plan.Valid() && AreInside(plan, steps) && Finished(plan, steps).Some?
    requires i < |steps| && steps[i].Text? && WritesAt(plan, steps[i], p) && p < |plan.source|
    ensures var run := Finished(plan, steps).value;
      || run.table[p] == ByteOf(plan, steps[i], p)
      || StandsAt(plan.source, run.values, plan.structures, plan.Entries(), run.table[p], p)
  {
    hide Finished, LastWrite, Plan.Valid, WritesAt, ByteOf, StandsAt;
    FinishedAt(plan, steps, p);
    var j := LastOf(plan, steps, i, p);
    TextIsSame(plan, steps[i], steps[j], p);
  }

  // Binaries

  /** The structure of a step is encoded after it. */
  predicate IsEncodedAfter(steps: seq<Step>, i: nat)
    requires i < |steps|
  {
    exists j :: i < j < |steps| && steps[j].Members? && steps[j].k == steps[i].k
  }

  /**
   A private binary, however short, is written over if its structure is not
   encoded after it: every byte of it is the one of the replacement of a binary
   there, or one of a value found there by the search.
   */
  lemma BinaryIsWritten(plan: Plan, steps: seq<Step>, i: nat, p: nat) returns (j: nat)
    requires plan.Valid() && AreInside(plan, steps) && Finished(plan, steps).Some?
    requires i < |steps| && steps[i].Binary? && WritesAt(plan, steps[i], p) && p < |plan.source|
    requires !IsEncodedAfter(steps, i)
    ensures i <= j < |steps| && steps[j].Binary? && WritesAt(plan, steps[j], p)
    ensures var run := Finished(plan, steps).value;
      || run.table[p] == ByteOf(plan, steps[j], p)
      || StandsAt(plan.source, run.values, plan.structures, plan.Entries(), run.table[p], p)
  {
    hide Finished, LastWrite, Plan.Valid, WritesAt, ByteOf, StandsAt;
    FinishedAt(plan, steps, p);
    j := LastOf(plan, steps, i, p);
    BodyWriter(plan, steps[i], steps[j], p);
  }

  /** A byte of a body is written by binaries and encodings of the structure only. */
  lemma BodyWriter(plan: Plan, a: Step, b: Step, p: nat)
    requires IsStep(plan, a) && IsStep(plan, b) && (a.Binary? || a.Members?)
    requires WritesAt(plan, a, p) && WritesAt(plan, b, p)
    ensures (b.Binary? || b.Members?) && a.k == b.k
  {
    hide Plan.Valid, Encoded, DataOf;
    BodyIsWritten(plan, a, p);
    if b.Text? {
      TextIsInString(plan, b, p);
      OneStructure(plan, a.k, b.k, p);
      assert false;
    } else {
      assert b.Binary? || b.Members?;
      BodyIsWritten(plan, b, p);
      OneStructure(plan, a.k, b.k, p);
    }
  }

  lemma {:induction false} NoneFails(plan: Plan, steps: seq<Step>, i: nat)
    requires plan.Valid() && AreInside(plan, steps) && AllTaken(plan, steps).Some? && i < |steps|
    ensures !Fails(plan, steps[i])
    decreases |steps|
  {
    hide Fails, Plan.Valid, IsInside, TableAfter, ValuesAfter;
    var n := |steps| - 1;
    if i < n {
      NoneFails(plan, steps[..n], i);
    }
  }

  /** The last encoding of a structure among the steps between a step of it and another one. */
  function LastEncoding(steps: seq<Step>, i: nat, n: nat): (j: Option<nat>)
    requires i < n <= |steps|
    ensures j.Some? ==> i < j.value < n && steps[j.value].Members? && steps[j.value].k == steps[i].k
    ensures forall l | (if j.Some? then j.value else i) < l < n :: !(steps[l].Members? && steps[l].k == steps[i].k)
    decreases n
  {
    if n == i + 1 then None
    else if steps[n - 1].Members? && steps[n - 1].k == steps[i].k then Some(n - 1)
    else LastEncoding(steps, i, n - 1)
  }

  /** What the steps leave of a binary: what the last encoding of its structure has in its place, if there is one. */
  function LeftOf(plan: Plan, steps: seq<Step>, i: nat): (left: seq<Byte>)
    requires plan.Valid() && AreInside(plan, steps) && AllTaken(plan, steps).Some?
    requires i < |steps| && steps[i].Binary? && IsTaken(plan, steps[i])
    ensures |left| == steps[i].length
  {
    hide AllTaken;
    var j, s := LastEncoding(steps, i, |steps|), plan.structures[steps[i].k];
    if j.None? then ReplacementOf(plan, steps[i])
    else
      assert Encoded(plan, steps[j.value]).Some? by {
        NoneFails(plan, steps, j.value);
      }
      var from := steps[i].at.value - s.offset;
      Encoded(plan, steps[j.value]).value[from..from + steps[i].length]
  }

  /** Nothing which is looked for is found over a range. */
  ghost predicate IsUnsought(plan: Plan, values: seq<Value>, from: nat, to: nat)
    requires plan.Valid()
  {
    forall byte: Byte, p | from <= p < to :: !StandsAt(plan.source, values, plan.structures, plan.Entries(), byte, p)
  }

  /** No binary taken after one is over it. */
  predicate IsLastBinary(plan: Plan, steps: seq<Step>, i: nat)
    requires plan.Valid() && AreInside(plan, steps) && i < |steps| && IsTaken(plan, steps[i]) && steps[i].Binary?
  {
    forall j, p | i < j < |steps| && steps[j].Binary? && steps[i].at.value <= p < steps[i].at.value + steps[i].length ::
      !WritesAt(plan, steps[j], p)
  }

  /**
   A private binary the search finds nothing over, as a short one may be, is
   left as it was exactly when the last encoding of its structure after it puts
   it back, or its replacement happens to be itself.
   */
  lemma BinaryIsLeft(plan: Plan, steps: seq<Step>, i: nat)
    requires plan.Valid() && AreInside(plan, steps) && Finished(plan, steps).Some?
    requires i < |steps| && steps[i].Binary? && IsTaken(plan, steps[i]) && IsLastBinary(plan, steps, i)
    requires var at := steps[i].at.value; IsUnsought(plan, Finished(plan, steps).value.values, at, at + steps[i].length)
    ensures var at, run := steps[i].at.value, Finished(plan, steps).value;
      && run.table[at..at + steps[i].length] == LeftOf(plan, steps, i)
      && (run.table[at..at + steps[i].length] == DataOf(plan, steps[i]) <==>
            LeftOf(plan, steps, i) == DataOf(plan, steps[i]))
  {
    hide AllSearched, AllTaken, Plan.Valid, LeftOf, IsInside, IsTaken, AreValues, IsUnsought, IsLastBinary;
    BinaryIsThere(plan, steps[i]);
    var at, n := steps[i].at.value, steps[i].length;
    var table, left := Finished(plan, steps).value.table, LeftOf(plan, steps, i);
    forall p | at <= p < at + n
      ensures table[p] == left[p - at]
    {
      ByteIsLeft(plan, steps, i, p);
    }
    assert table[at..at + n] == left;
  }

  lemma ByteIsLeft(plan: Plan, steps: seq<Step>, i: nat, p: nat)
    requires plan.Valid() && AreInside(plan, steps) && Finished(plan, steps).Some?
    requires i < |steps| && steps[i].Binary? && IsTaken(plan, steps[i]) && IsLastBinary(plan, steps, i)
    requires steps[i].at.value <= p < steps[i].at.value + steps[i].length
    requires var at := steps[i].at.value; IsUnsought(plan, Finished(plan, steps).value.values, at, at + steps[i].length)
    ensures Finished(plan, steps).value.table[p] == LeftOf(plan, steps, i)[p - steps[i].at.value]
  {
    hide LastWrite, Plan.Valid, AllTaken, Encoded, StandsAt, DataOf, ReplacementOf, AllSearched;
    BinaryIsThere(plan, steps[i]);
    BinaryWrites(plan, steps[i], p);
    FinishedAt(plan, steps, p);
    var j := LastOf(plan, steps, i, p);
    BodyWriter(plan, steps[i], steps[j], p);
    var last := LastEncoding(steps, i, |steps|);
    if last.Some? {
      NoneFails(plan, steps, last.value);
      BodyIsWritten(plan, steps[i], p);
      EncodingWrites(plan, steps[last.value], p);
    }
    assert last == if j == i then None else Some(j);
  }

  lemma BinaryIsThere(plan: Plan, step: Step)
    requires IsStep(plan, step) && step.Binary? && IsTaken(plan, step)
    ensures step.at.Some? && step.at.value + step.length <= |plan.source|
    ensures DataOf(plan, step) == plan.source[step.at.value..step.at.value + step.length]
  {
    hide Plan.Valid;
  }

  lemma BinaryWrites(plan: Plan, step: Step, p: nat)
    requires IsStep(plan, step) && step.Binary? && IsTaken(plan, step)
    requires step.at.value <= p < step.at.value + step.length
    ensures p < |plan.source| && WritesAt(plan, step, p)
    ensures ByteOf(plan, step, p) == ReplacementOf(plan, step)[p - step.at.value]
  {
    hide Plan.Valid;
  }

  lemma EncodingWrites(plan: Plan, step: Step, p: nat)
    requires IsStep(plan, step) && step.Members? && !Fails(plan, step)
    requires plan.structures[step.k].offset <= p < plan.structures[step.k].StringsAt()
    ensures WritesAt(plan, step, p)
    ensures ByteOf(plan, step, p) == Encoded(plan, step).value[p - plan.structures[step.k].offset]
  {
    hide Plan.Valid, Encoded, DataOf;
  }

  // Values

  /** Bytes of a body which its encoding has others for. */
  ghost predicate IsChanged(plan: Plan, step: Step, data: seq<Byte>, replacement: seq<Byte>) {
    && IsStep(plan, step) && step.Members? && !Fails(plan, step)
    && exists p :: IsChangedAt(plan, step, data, replacement, p)
  }

  predicate IsChangedAt(plan: Plan, step: Step, data: seq<Byte>, replacement: seq<Byte>, p: nat)
    requires IsStep(plan, step) && step.Members? && !Fails(plan, step)
  {
    var s := plan.structures[step.k];
    && s.offset <= p && p + |data| <= s.StringsAt() && Occurs(plan.source, data, p)
    && replacement == Encoded(plan, step).value[p - s.offset..p - s.offset + |data|] != data
  }

  /** Where a replacement comes from: it has been drawn for a private value, or taken from an encoding. */
  ghost predicate IsMadeBy(plan: Plan, step: Step, v: Value) {
    && IsStep(plan, step)
    && if step.Members? then
         v.data in step.saved && |v.data| >= PATTERN_MIN && IsChanged(plan, step, v.data, v.replacement)
       else IsTaken(plan, step) && v.data == DataOf(plan, step) && v.replacement == ReplacementOf(plan, step)
  }

  ghost predicate IsMade(plan: Plan, steps: seq<Step>, v: Value) {
    exists i :: 0 <= i < |steps| && IsMadeBy(plan, steps[i], v)
  }

  lemma {:induction false} AddedIs(values: seq<Value>, v: Value, j: nat) returns (from: Value)
    requires j < |Added(values, v)|
    ensures from == v || from in values
    ensures Added(values, v)[j].data == from.data && Added(values, v)[j].replacement == from.replacement
  {
    if values == [] {
      from := v;
    } else if j == 0 {
      from := values[0];
    } else if values[0].data == v.data {
      from := values[j];
    } else {
      from := AddedIs(values[1..], v, j - 1);
    }
  }

  /** A structure which has been written holds its encoding. */
  lemma NowIsEncoded(plan: Plan, table: seq<Byte>, step: Step, p: nat, n: nat)
    requires IsStep(plan, step) && step.Members? && !Fails(plan, step) && |table| == |plan.source|
    requires var s := plan.structures[step.k]; s.offset <= p && p + n <= s.StringsAt()
    ensures var from := p - plan.structures[step.k].offset;
      && p + n <= |plan.source|
      && TableAfter(plan, table, step)[p..p + n] == Encoded(plan, step).value[from..from + n]
  {
    hide Plan.Valid, Encoded;
    StructureIsWithin(plan, step.k);
    var s, now := plan.structures[step.k], TableAfter(plan, table, step);
    assert forall q | p <= q < p + n :: now[q] == Encoded(plan, step).value[q - s.offset];
    assert now[p..p + n] == Encoded(plan, step).value[p - s.offset..p - s.offset + n];
  }

  lemma FoundIsMade(plan: Plan, table: seq<Byte>, step: Step, v: Value, p: nat)
    requires IsStep(plan, step) && step.Members? && !Fails(plan, step) && |table| == |plan.source|
    requires v.data in step.saved && |v.data| >= PATTERN_MIN
    requires var s := plan.structures[step.k]; s.offset <= p && p + |v.data| <= s.StringsAt() <= |plan.source|
    requires var now := TableAfter(plan, table, step);
      && Occurs(plan.source, v.data, p) && !Occurs(now, v.data, p) && v.replacement == now[p..p + |v.data|]
    ensures IsMadeBy(plan, step, v)
  {
    hide Plan.Valid, Encoded, TableAfter, Fails;
    NowIsEncoded(plan, table, step, p, |v.data|);
    assert IsChangedAt(plan, step, v.data, v.replacement, p);
  }

  lemma {:induction false} CollectedAreMade(plan: Plan, table: seq<Byte>, step: Step, saved: seq<seq<Byte>>,
                                            values: seq<Value>, j: nat)
    requires IsStep(plan, step) && step.Members? && !Fails(plan, step) && |table| == |plan.source|
    requires forall m | 0 <= m < |saved| :: saved[m] in step.saved
    requires var s := plan.structures[step.k]; s.StringsAt() <= |plan.source|
    requires j < |Collected(plan.source, plan.structures[step.k], TableAfter(plan, table, step), saved, values)|
    ensures var v := Collected(plan.source, plan.structures[step.k], TableAfter(plan, table, step), saved, values)[j];
      || IsMadeBy(plan, step, v)
      || exists w :: w in values && w.data == v.data && w.replacement == v.replacement
    decreases |saved|
  {
    hide Plan.Valid, Encoded, TableAfter, Added, FindChanged, Fails, IsMadeBy;
    var s, now := plan.structures[step.k], TableAfter(plan, table, step);
    if saved == [] {
      assert values[j] in values;
    } else {
      var n := |saved| - 1;
      var rest, data := Collected(plan.source, s, now, saved[..n], values), saved[n];
      var found := if |data| >= PATTERN_MIN then FindChanged(plan.source, s, now, data, s.offset) else None;
      if found.None? || IsBlank(data) {
        CollectedAreMade(plan, table, step, saved[..n], values, j);
      } else {
        var v := Value(data, now[found.value..found.value + |data|], true);
        var from := AddedIs(rest, v, j);
        if from == v {
          FoundIsMade(plan, table, step, Collected(plan.source, s, now, saved, values)[j], found.value);
        } else {
          var l :| 0 <= l < |rest| && rest[l] == from;
          CollectedAreMade(plan, table, step, saved[..n], values, l);
          if IsMadeBy(plan, step, from) {
            SameIsMade(plan, step, from, Collected(plan.source, s, now, saved, values)[j]);
          }
        }
      }
    }
  }

  /** The replacement of every value found has been drawn for it, or is what an encoding has in its place. */
  lemma {:induction false} ValuesAreMade(plan: Plan, steps: seq<Step>, j: nat)
    requires plan.Valid() && AreInside(plan, steps) && AllTaken(plan, steps).Some?
    requires j < |AllTaken(plan, steps).value.values|
    ensures IsMade(plan, steps, AllTaken(plan, steps).value.values[j])
    decreases |steps|
  {
    hide Plan.Valid, TableAfter, Added, Collected, Fails, IsTaken, DataOf, ReplacementOf, IsMadeBy;
    var n := |steps| - 1;
    var before, step := AllTaken(plan, steps[..n]).value, steps[n];
    var v := AllTaken(plan, steps).value.values[j];
    if step.Members? {
      StructureIsWithin(plan, step.k);
      CollectedAreMade(plan, before.table, step, step.saved, before.values, j);
      if !IsMadeBy(plan, step, v) {
        var w :| w in before.values && w.data == v.data && w.replacement == v.replacement;
        StillMade(plan, steps, w, v);
      }
    } else if IsTaken(plan, step) {
      var from := AddedIs(before.values, ValueOf(plan, step), j);
      if from == ValueOf(plan, step) {
        TakenMakes(plan, step, v);
      } else {
        StillMade(plan, steps, from, v);
      }
    } else {
      StillMade(plan, steps, v, v);
    }
  }

  lemma TakenMakes(plan: Plan, step: Step, v: Value)
    requires IsStep(plan, step) && IsTaken(plan, step)
    requires v.data == DataOf(plan, step) && v.replacement == ReplacementOf(plan, step)
    ensures IsMadeBy(plan, step, v)
  {
  }

  lemma StillMade(plan: Plan, steps: seq<Step>, w: Value, v: Value)
    requires plan.Valid() && AreInside(plan, steps) && AllTaken(plan, steps).Some? && steps != []
    requires w in AllTaken(plan, steps[..|steps| - 1]).value.values
    requires w.data == v.data && w.replacement == v.replacement
    ensures IsMade(plan, steps, v)
    decreases |steps|, 0
  {
    hide Plan.Valid, IsInside, IsMadeBy, Taken;
    var front := steps[..|steps| - 1];
    var l :| 0 <= l < |AllTaken(plan, front).value.values| && AllTaken(plan, front).value.values[l] == w;
    ValuesAreMade(plan, front, l);
    var i :| 0 <= i < |front| && IsMadeBy(plan, front[i], w);
    assert steps[i] == front[i];
    SameIsMade(plan, steps[i], w, v);
  }

  lemma SameIsMade(plan: Plan, step: Step, w: Value, v: Value)
    requires IsMadeBy(plan, step, w) && w.data == v.data && w.replacement == v.replacement
    ensures IsMadeBy(plan, step, v)
  {
  }

  // What is looked for

  ghost predicate IsLookedFor(values: seq<Value>, data: seq<Byte>) {
    exists v :: 0 <= v < |values| && values[v].data == data && values[v].propagate
  }

  /**
   Private binaries and identifiers are looked for everywhere, and so are the
   members an encoding has others for.
   */
  ghost predicate IsKnown(plan: Plan, step: Step, values: seq<Value>)
    requires IsStep(plan, step)
  {
    if step.Members? then
      forall data, replacement | IsChanged(plan, step, data, replacement) ::
        data in step.saved && |data| >= PATTERN_MIN && !IsBlank(data) ==> IsLookedFor(values, data)
    else
      IsTaken(plan, step) && (step.Binary? || IsIdentity(DataOf(plan, step))) ==>
        IsLookedFor(values, DataOf(plan, step))
  }

  /** Values are neither lost nor replaced otherwise, and are looked for once they have been. */
  predicate Extends(a: seq<Value>, b: seq<Value>) {
    && |a| <= |b|
    && forall v | 0 <= v < |a| ::
         b[v].data == a[v].data && b[v].replacement == a[v].replacement && (a[v].propagate ==> b[v].propagate)
  }

  lemma {:induction false} AddedExtends(values: seq<Value>, v: Value)
    ensures Extends(values, Added(values, v))
    ensures v.propagate ==> IsLookedFor(Added(values, v), v.data)
  {
    var added := Added(values, v);
    if values != [] && values[0].data != v.data {
      AddedExtends(values[1..], v);
      var rest := Added(values[1..], v);
      assert forall i | 0 <= i < |rest| :: added[i + 1] == rest[i];
      assert forall i | 1 <= i < |values| :: values[1..][i - 1] == values[i] && added[i] == rest[i - 1];
    } else {
      assert added[0].data == v.data;
    }
  }

  lemma ExtendsAgain(a: seq<Value>, b: seq<Value>, c: seq<Value>)
    requires Extends(a, b) && Extends(b, c)
    ensures Extends(a, c)
  {
  }

  lemma StillLookedFor(a: seq<Value>, b: seq<Value>, data: seq<Byte>)
    requires Extends(a, b) && IsLookedFor(a, data)
    ensures IsLookedFor(b, data)
  {
    var v :| 0 <= v < |a| && a[v].data == data && a[v].propagate;
    assert b[v].data == data;
  }

  lemma StillKnown(plan: Plan, step: Step, a: seq<Value>, b: seq<Value>)
    requires IsStep(plan, step) && Extends(a, b) && IsKnown(plan, step, a)
    ensures IsKnown(plan, step, b)
  {
    hide Plan.Valid, IsTaken, IsIdentity, DataOf, IsChanged, IsLookedFor, Extends;
    forall data | IsLookedFor(a, data)
      ensures IsLookedFor(b, data)
    {
      StillLookedFor(a, b, data);
    }
  }

  lemma AlsoExtends(source: seq<Byte>, s: Structure, now: seq<Byte>, data: seq<Byte>, before: seq<Value>)
    requires |now| == |source| && s.StringsAt() <= |source|
    ensures Extends(before, AlsoCollected(source, s, now, data, before))
  {
    hide FindChanged, Added;
    var found := if |data| >= PATTERN_MIN then FindChanged(source, s, now, data, s.offset) else None;
    if found.Some? {
      AddedExtends(before, Value(data, now[found.value..found.value + |data|], true));
    }
  }

  lemma {:induction false} CollectedExtends(source: seq<Byte>, s: Structure, now: seq<Byte>, saved: seq<seq<Byte>>,
                                            before: seq<Value>)
    requires |now| == |source| && s.StringsAt() <= |source|
    ensures Extends(before, Collected(source, s, now, saved, before))
    decreases |saved|
  {
    hide AlsoCollected;
    if saved != [] {
      var n := |saved| - 1;
      var rest := Collected(source, s, now, saved[..n], before);
      CollectedExtends(source, s, now, saved[..n], before);
      AlsoExtends(source, s, now, saved[n], rest);
      ExtendsAgain(before, rest, AlsoCollected(source, s, now, saved[n], rest));
    }
  }

  /** A saved member the encoding has another one for is found in its body, and added. */
  lemma ChangedIsFound(plan: Plan, table: seq<Byte>, step: Step, data: seq<Byte>, replacement: seq<Byte>,
                       before: seq<Value>)
    requires IsStep(plan, step) && IsChanged(plan, step, data, replacement) && |table| == |plan.source|
    requires |data| >= PATTERN_MIN && !IsBlank(data) && plan.structures[step.k].StringsAt() <= |plan.source|
    ensures var s, now := plan.structures[step.k], TableAfter(plan, table, step);
      IsLookedFor(AlsoCollected(plan.source, s, now, data, before), data)
  {
    hide Plan.Valid, Encoded, TableAfter, Added, Fails, FindChanged, AlsoCollected;
    var s, now := plan.structures[step.k], TableAfter(plan, table, step);
    var p :| IsChangedAt(plan, step, data, replacement, p);
    NowIsEncoded(plan, table, step, p, |data|);
    FoundIsLookedFor(plan.source, s, now, data, before, p);
  }

  lemma FoundIsLookedFor(source: seq<Byte>, s: Structure, now: seq<Byte>, data: seq<Byte>, before: seq<Value>, p: nat)
    requires |now| == |source| && s.StringsAt() <= |source| && |data| >= PATTERN_MIN && !IsBlank(data)
    requires s.offset <= p && p + |data| <= s.StringsAt() && Occurs(source, data, p) && !Occurs(now, data, p)
    ensures IsLookedFor(AlsoCollected(source, s, now, data, before), data)
  {
    hide Added, FindChanged, Occurs, IsBlank;
    var found := FindChanged(source, s, now, data, s.offset);
    AddedExtends(before, Value(data, now[found.value..found.value + |data|], true));
  }

  lemma {:induction false} CollectedKnows(plan: Plan, table: seq<Byte>, step: Step, saved: seq<seq<Byte>>, m: nat,
                                          replacement: seq<Byte>, before: seq<Value>)
    requires IsStep(plan, step) && |table| == |plan.source|
    requires m < |saved| && IsChanged(plan, step, saved[m], replacement)
    requires |saved[m]| >= PATTERN_MIN && !IsBlank(saved[m]) && plan.structures[step.k].StringsAt() <= |plan.source|
    ensures var s, now := plan.structures[step.k], TableAfter(plan, table, step);
      IsLookedFor(Collected(plan.source, s, now, saved, before), saved[m])
    decreases |saved|
  {
    hide Plan.Valid, IsChanged, TableAfter, AlsoCollected, IsLookedFor, Extends, Fails;
    var s, now, n := plan.structures[step.k], TableAfter(plan, table, step), |saved| - 1;
    var rest := Collected(plan.source, s, now, saved[..n], before);
    if m == n {
      ChangedIsFound(plan, table, step, saved[n], replacement, rest);
    } else {
      CollectedKnows(plan, table, step, saved[..n], m, replacement, before);
      AlsoExtends(plan.source, s, now, saved[n], rest);
      StillLookedFor(rest, AlsoCollected(plan.source, s, now, saved[n], rest), saved[m]);
    }
  }

  lemma TakenExtends(plan: Plan, run: Run, step: Step)
    requires IsStep(plan, step) && IsRun(plan, run) && Taken(plan, run, step).Some?
    ensures Extends(run.values, Taken(plan, run, step).value.values)
  {
    hide Plan.Valid, Encoded, TableAfter, Added, Collected, DataOf, ReplacementOf;
    if step.Members? {
      StructureIsWithin(plan, step.k);
      CollectedExtends(plan.source, plan.structures[step.k], TableAfter(plan, run.table, step), step.saved, run.values);
    } else if IsTaken(plan, step) {
      AddedExtends(run.values, ValueOf(plan, step));
    }
  }

  lemma TakenKnows(plan: Plan, run: Run, step: Step)
    requires IsStep(plan, step) && IsRun(plan, run) && Taken(plan, run, step).Some?
    ensures IsKnown(plan, step, Taken(plan, run, step).value.values)
  {
    hide Plan.Valid, Encoded, TableAfter, Added, Collected, DataOf, ReplacementOf, IsIdentity, IsLookedFor, IsChanged;
    if step.Members? {
      StructureIsWithin(plan, step.k);
      var after := Taken(plan, run, step).value.values;
      forall data, replacement | IsChanged(plan, step, data, replacement)
        && data in step.saved && |data| >= PATTERN_MIN && !IsBlank(data)
        ensures IsLookedFor(after, data)
      {
        var m :| 0 <= m < |step.saved| && step.saved[m] == data;
        CollectedKnows(plan, run.table, step, step.saved, m, replacement, run.values);
      }
    } else if IsTaken(plan, step) {
      AddedExtends(run.values, ValueOf(plan, step));
    }
  }

  /** Values which are to be looked for are known in the end. */
  lemma {:induction false} AllAreKnown(plan: Plan, steps: seq<Step>, i: nat)
    requires plan.Valid() && AreInside(plan, steps) && AllTaken(plan, steps).Some? && i < |steps|
    ensures IsKnown(plan, steps[i], AllTaken(plan, steps).value.values)
    decreases |steps|
  {
    hide Plan.Valid, IsInside, IsKnown, Taken, IsRun;
    var n := |steps| - 1;
    var before := AllTaken(plan, steps[..n]).value;
    if i == n {
      TakenKnows(plan, before, steps[n]);
    } else {
      AllAreKnown(plan, steps[..n], i);
      TakenExtends(plan, before, steps[n]);
      StillKnown(plan, steps[i], before.values, AllTaken(plan, steps).value.values);
    }
  }

  // What is found

  /** All the strings and the bodies have been searched for the values. */
  ghost predicate IsClean(plan: Plan, run: Run)
    requires plan.Valid()
  {
    forall k | 0 <= k < |plan.structures| ::
      IsStructureSearched(plan.source, run.values, run.table, plan.structures[k], plan.Entries()[k])
  }

  /** In the end, every occurrence of a value which is looked for is written over. */
  lemma FinishedIsClean(plan: Plan, steps: seq<Step>)
    requires plan.Valid() && AreInside(plan, steps) && Finished(plan, steps).Some?
    ensures IsClean(plan, Finished(plan, steps).value)
  {
    hide AllTaken, IsStructureSearched, AreStrings, CreateAt, AreEntries, Tiles;
    var taken := AllTaken(plan, steps).value;
    plan.EntriesAreWithin();
    AllAreSearched(plan.source, taken.values, plan.structures, plan.Entries(), |plan.structures|, taken.table);
  }

  /** A private binary which is long enough to be looked for in bodies is found there, even if it has been put back. */
  lemma LongIsWritten(plan: Plan, steps: seq<Step>, i: nat) returns (o: nat)
    requires plan.Valid() && AreInside(plan, steps) && Finished(plan, steps).Some?
    requires i < |steps| && steps[i].Binary? && IsTaken(plan, steps[i]) && steps[i].length >= PATTERN_MIN
    ensures o <= steps[i].at.value < o + steps[i].length <= |plan.source|
    ensures Occurs(plan.source, DataOf(plan, steps[i]), o)
    ensures var run := Finished(plan, steps).value;
      forall p | o <= p < o + steps[i].length ::
        StandsAt(plan.source, run.values, plan.structures, plan.Entries(), run.table[p], p)
  {
    hide AllTaken, AllSearched, Plan.Valid, IsTaken;
    var run, step := Finished(plan, steps).value, steps[i];
    AllAreKnown(plan, steps, i);
    FinishedIsClean(plan, steps);
    BinaryIsThere(plan, step);
    o := BodyIsCovered(plan, run, step);
  }

  lemma BodyIsCovered(plan: Plan, run: Run, step: Step) returns (o: nat)
    requires IsStep(plan, step) && IsRun(plan, run) && IsClean(plan, run) && IsKnown(plan, step, run.values)
    requires step.Binary? && IsTaken(plan, step) && step.length >= PATTERN_MIN
    ensures o <= step.at.value < o + step.length <= |plan.source| && Occurs(plan.source, DataOf(plan, step), o)
    ensures forall p | o <= p < o + step.length ::
      StandsAt(plan.source, run.values, plan.structures, plan.Entries(), run.table[p], p)
  {
    hide Plan.Valid, StandsAt, IsRun, IsTaken, AreStringsSearched;
    var s, data := plan.structures[step.k], DataOf(plan, step);
    BinaryIsThere(plan, step);
    StructureIsWithin(plan, step.k);
    assert |run.table| == |plan.source| by {
      RunIsLong(plan, run);
    }
    assert IsStructureSearched(plan.source, run.values, run.table, s, plan.Entries()[step.k]);
    o := ValueIsCovered(plan.source, run.values, run.table, s, plan.Entries()[step.k], data, step.at.value);
    forall p | o <= p < o + step.length
      ensures StandsAt(plan.source, run.values, plan.structures, plan.Entries(), run.table[p], p)
    {
      BodyStands(plan, run, step.k, p);
    }
  }

  lemma RunIsLong(plan: Plan, run: Run)
    requires IsRun(plan, run)
    ensures |run.table| == |plan.source|
  {
  }

  lemma ValueIsCovered(source: seq<Byte>, values: seq<Value>, table: seq<Byte>, s: Structure, entries: seq<Entry>,
                       data: seq<Byte>, at: nat)
    returns (o: nat)
    requires IsBodySearched(source, values, table, s) && IsLookedFor(values, data) && |table| == |source|
    requires |data| >= PATTERN_MIN && s.offset + HEADER_SIZE <= at && at + |data| <= s.StringsAt()
    requires Occurs(source, data, at)
    ensures o <= at < o + |data| <= |source| && Occurs(source, data, o)
    ensures forall p | o <= p < o + |data| :: SearchOf(source, values, s, entries, None).Stands(table[p], p)
  {
    hide IsSearched, Search.Stands, Occurs;
    var v := LookedFor(values, data);
    var search := SearchOf(source, values, s, entries, None);
    o := SearchedCovers(search, table, v, at);
  }

  lemma LookedFor(values: seq<Value>, data: seq<Byte>) returns (v: nat)
    requires IsLookedFor(values, data)
    ensures v < |values| && values[v].data == data && values[v].propagate
  {
    v :| 0 <= v < |values| && values[v].data == data && values[v].propagate;
  }

  lemma SearchedCovers(search: Search, table: seq<Byte>, v: nat, at: nat) returns (o: nat)
    requires IsSearched(search.source, search.values, table, search.start, search.end, search.minimum)
    requires v < |search.values| && search.values[v].propagate && search.minimum <= |search.values[v].data|
    requires search.start <= at && at + |search.values[v].data| <= search.end
    requires Occurs(search.source, search.values[v].data, at)
    ensures var data := search.values[v].data;
      && o <= at < o + |data| <= |search.source| && Occurs(search.source, data, o)
      && forall p | o <= p < o + |data| :: p < |table| && search.Stands(table[p], p)
  {
    hide Search.Covers, Search.Stands, Occurs;
    assert Search(search.source, search.values, search.start, search.end, search.minimum) == search;
    o := search.CoveredBy(table, v, search.start, at);
  }

  lemma BodyStands(plan: Plan, run: Run, k: nat, p: nat)
    requires plan.Valid() && IsRun(plan, run) && k < |plan.structures| && p < |run.table|
    requires SearchOf(plan.source, run.values, plan.structures[k], plan.Entries()[k], None).Stands(run.table[p], p)
    ensures StandsAt(plan.source, run.values, plan.structures, plan.Entries(), run.table[p], p)
  {
    hide Plan.Valid;
    assert StandsIn(plan.source, run.values, plan.structures[k], plan.Entries()[k], run.table[p], p);
  }

  // All of them

  /** A byte of a replacement: of a private member there, or of a value the search has found. */
  ghost predicate IsReplacedAt(plan: Plan, steps: seq<Step>, run: Run, p: nat)
    requires plan.Valid() && AreInside(plan, steps) && p < |run.table|
  {
    || (exists j :: 0 <= j < |steps| && IsReplacedBy(plan, steps[j], run.table[p], p))
    || StandsAt(plan.source, run.values, plan.structures, plan.Entries(), run.table[p], p)
  }

  predicate IsReplacedBy(plan: Plan, step: Step, byte: Byte, p: nat)
    requires IsStep(plan, step)
  {
    !step.Members? && WritesAt(plan, step, p) && byte == ByteOf(plan, step, p)
  }

  /** Private texts of strings, and binaries of structures not encoded after them, are written over where they are. */
  ghost predicate AreWritten(plan: Plan, steps: seq<Step>, run: Run)
    requires plan.Valid() && AreInside(plan, steps) && |run.table| == |plan.source|
  {
    forall i, p | 0 <= i < |steps| && 0 <= p < |plan.source| && WritesAt(plan, steps[i], p)
                  && (steps[i].Text? || (steps[i].Binary? && !IsEncodedAfter(steps, i))) ::
      IsReplacedAt(plan, steps, run, p)
  }

  lemma AllAreWritten(plan: Plan, steps: seq<Step>)
    requires plan.Valid() && AreInside(plan, steps) && Finished(plan, steps).Some?
    ensures AreWritten(plan, steps, Finished(plan, steps).value)
  {
    hide Finished, Plan.Valid, StandsAt, WritesAt, ByteOf;
    var run := Finished(plan, steps).value;
    forall i, p | 0 <= i < |steps| && 0 <= p < |plan.source| && WritesAt(plan, steps[i], p)
                  && (steps[i].Text? || (steps[i].Binary? && !IsEncodedAfter(steps, i)))
      ensures IsReplacedAt(plan, steps, run, p)
    {
      if steps[i].Text? {
        TextIsWritten(plan, steps, i, p);
        assert run.table[p] == ByteOf(plan, steps[i], p) ==> IsReplacedBy(plan, steps[i], run.table[p], p);
      } else {
        var j := BinaryIsWritten(plan, steps, i, p);
        assert run.table[p] == ByteOf(plan, steps[j], p) ==> IsReplacedBy(plan, steps[j], run.table[p], p);
      }
    }
  }

  /** All the private values of the steps are known. */
  ghost predicate AreKnown(plan: Plan, steps: seq<Step>, values: seq<Value>)
    requires plan.Valid() && AreInside(plan, steps)
  {
    forall i | 0 <= i < |steps| :: IsKnown(plan, steps[i], values)
  }

  ghost predicate AreMade(plan: Plan, steps: seq<Step>, values: seq<Value>) {
    forall v | v in values :: IsMade(plan, steps, v)
  }

  lemma FinishedValues(plan: Plan, steps: seq<Step>)
    requires plan.Valid() && AreInside(plan, steps) && Finished(plan, steps).Some?
    ensures AreKnown(plan, steps, Finished(plan, steps).value.values)
    ensures AreMade(plan, steps, Finished(plan, steps).value.values)
  {
    hide Plan.Valid, AllTaken, AllSearched, IsKnown, IsMade, IsInside;
    var values := AllTaken(plan, steps).value.values;
    forall i | 0 <= i < |steps|
      ensures IsKnown(plan, steps[i], values)
    {
      AllAreKnown(plan, steps, i);
    }
    forall v | v in values
      ensures IsMade(plan, steps, v)
    {
      var j :| 0 <= j < |values| && values[j] == v;
      ValuesAreMade(plan, steps, j);
    }
  }

  /** Texts only are replaced safely, and nothing fails. */
  lemma {:induction false} TextsAreSafe(plan: Plan, steps: seq<Step>)
    requires plan.Valid() && AreInside(plan, steps)
    requires forall i | 0 <= i < |steps| :: steps[i].Text? || steps[i].Owned?
    ensures AllTaken(plan, steps).Some? && AreSafe(AllTaken(plan, steps).value.values)
    decreases |steps|
  {
    hide Plan.Valid, IsInside, TableAfter, Added, DataOf, AreValues;
    if steps != [] {
      var n := |steps| - 1;
      TextsAreSafe(plan, steps[..n]);
      var before, step := AllTaken(plan, steps[..n]).value, steps[n];
      if IsTaken(plan, step) {
        AddedIsSafe(before.values, ValueOf(plan, step));
      }
    }
  }
}
