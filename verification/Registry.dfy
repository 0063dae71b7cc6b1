/**
 The registry of structures: a list in the order of the table, and a hash index
 over its handles, kept in the same entries (libopendmi/src/registry.c).
 */
module Registries {
  import opened Wrappers
  import opened Bytes
  import opened Tables

  const HANDLE_INVALID: nat := 0xFFFF
  const HANDLE_UNSUPPORTED: nat := 0xFFFE

  /** A registry has at least one bucket. */
  type Size = n: nat | n > 0 witness 1

  // Specification

  function Bucket(handle: nat, capacity: Size): (b: nat)
    ensures b < capacity
  {
    handle % capacity
  }

  /** The first structure of a bucket from an index on: what a chain leads to. */
  function NextIn(list: seq<Structure>, capacity: Size, bucket: nat, from: nat): (r: Option<nat>)
    ensures r.Some? ==>
      && from <= r.value < |list| && Bucket(list[r.value].handle, capacity) == bucket
      && forall k | from <= k < r.value :: Bucket(list[k].handle, capacity) != bucket
    ensures r.None? ==> forall k | from <= k < |list| :: Bucket(list[k].handle, capacity) != bucket
    decreases |list| - from
  {
    if from >= |list| then None
    else if Bucket(list[from].handle, capacity) == bucket then Some(from)
    else NextIn(list, capacity, bucket, from + 1)
  }

  lemma {:induction false} NextInAppended(list: seq<Structure>, s: Structure, capacity: Size, bucket: nat, from: nat)
    requires from <= |list|
    ensures NextIn(list + [s], capacity, bucket, from)
         == if NextIn(list, capacity, bucket, from).Some? then NextIn(list, capacity, bucket, from)
            else if Bucket(s.handle, capacity) == bucket then Some(|list|) else None
    decreases |list| - from
  {
    if from < |list| {
      assert (list + [s])[from] == list[from];
      NextInAppended(list, s, capacity, bucket, from + 1);
    } else {
      assert (list + [s])[from] == s;
      assert NextIn(list + [s], capacity, bucket, from + 1).None?;
    }
  }

  /** Only the last entry of the chain gets a next one. */
  lemma LinksAppended(list: seq<Structure>, s: Structure, capacity: Size, at: Option<nat>, i: nat)
    requires i < |list| && (at.Some? ==> at.value < |list|)
    requires at.None? ==> NextIn(list, capacity, Bucket(s.handle, capacity), 0).None?
    requires at.Some? ==>
      && Bucket(list[at.value].handle, capacity) == Bucket(s.handle, capacity)
      && NextIn(list, capacity, Bucket(s.handle, capacity), at.value + 1).None?
    ensures var b := Bucket(list[i].handle, capacity);
      NextIn(list + [s], capacity, b, i + 1) == if at == Some(i) then Some(|list|) else NextIn(list, capacity, b, i + 1)
  {
    hide Bucket, NextIn;
    NextInAppended(list, s, capacity, Bucket(list[i].handle, capacity), i + 1);
  }

  /** A chain, followed from an index on. */
  function Chain(list: seq<Structure>, capacity: Size, bucket: nat, from: nat): (chain: seq<nat>)
    decreases |list| - from
  {
    var next := NextIn(list, capacity, bucket, from);
    if next.None? then [] else [next.value] + Chain(list, capacity, bucket, next.value + 1)
  }

  /** The chains partition the list, and each one keeps its order. */
  lemma {:induction false} ChainsPartition(list: seq<Structure>, capacity: Size, bucket: nat, from: nat)
    ensures var chain := Chain(list, capacity, bucket, from);
      && (forall i | 0 <= i < |chain| :: from <= chain[i] < |list|)
      && (forall i, j | 0 <= i < j < |chain| :: chain[i] < chain[j])
      && (forall k | from <= k < |list| :: k in chain <==> Bucket(list[k].handle, capacity) == bucket)
    decreases |list| - from
  {
    hide Bucket, NextIn;
    var next := NextIn(list, capacity, bucket, from);
    if next.Some? {
      ChainsPartition(list, capacity, bucket, next.value + 1);
    }
  }

  /** A structure of the same bucket stands at the same offset. */
  predicate Holds(list: seq<Structure>, capacity: Size, s: Structure)
  {
    exists k :: 0 <= k < |list| && Bucket(list[k].handle, capacity) == Bucket(s.handle, capacity)
      && list[k].offset == s.offset
  }

  /** The first structure in the order of the table which has a handle. */
  function FirstWith(list: seq<Structure>, handle: nat, from: nat): (r: Option<nat>)
    ensures r.Some? ==>
      && from <= r.value < |list| && list[r.value].handle == handle
      && forall k | from <= k < r.value :: list[k].handle != handle
    ensures r.None? ==> forall k | from <= k < |list| :: list[k].handle != handle
    decreases |list| - from
  {
    if from >= |list| then None
    else if list[from].handle == handle then Some(from)
    else FirstWith(list, handle, from + 1)
  }

  predicate IsReserved(handle: nat) {
    handle == HANDLE_INVALID || handle == HANDLE_UNSUPPORTED
  }

  /** What a lookup tells. A reference which is not set is no error, unlike one which leads nowhere. */
  datatype Answer = Present(structure: Structure) | Unset | Missing | WrongKind

  function Answered(list: seq<Structure>, handle: nat, kind: Option<nat>, strict: bool): Answer {
    if IsReserved(handle) then Unset
    else
      var k := FirstWith(list, handle, 0);
      if k.None? then Missing
      else if kind == None || kind == Some(list[k.value].kind) then Present(list[k.value])
      else if handle == 0 && !strict then Unset
      else WrongKind
  }

  /** Structures a filter lets through. No filter lets all of them through. */
  predicate Passes(filter: Option<Structure -> bool>, s: Structure) {
    filter.Some? ==> filter.value(s)
  }

  function Filtered(list: seq<Structure>, filter: Option<Structure -> bool>): seq<Structure> {
    if list == [] then []
    else if Passes(filter, list[0]) then [list[0]] + Filtered(list[1..], filter)
    else Filtered(list[1..], filter)
  }

  lemma NotHeld(list: seq<Structure>, capacity: Size, s: Structure)
    requires forall k | 0 <= k < |list| :: list[k].offset < s.offset
    ensures !Holds(list, capacity, s)
  {
  }

  lemma ScanStops(table: seq<Byte>, offset: nat, index: nat, limit: nat, strict: bool, before: seq<Structure>)
    requires IsReached(limit, index) || !CreateAt(table, offset).Created?
    ensures ScanFrom(table, offset, index, limit, strict)
         == Scan([], if IsReached(limit, index) then Complete
                     else if CreateAt(table, offset).BadLength? && strict then Failed else Cut)
    ensures before + [] == before
  {
  }

  lemma ScanEnds(table: seq<Byte>, offset: nat, index: nat, limit: nat, strict: bool)
    requires !IsReached(limit, index) && CreateAt(table, offset).Created?
    requires CreateAt(table, offset).structure.kind == END_OF_TABLE
    ensures ScanFrom(table, offset, index, limit, strict) == Scan([CreateAt(table, offset).structure], Complete)
  {
  }

  lemma ScanGoesOn(table: seq<Byte>, offset: nat, index: nat, limit: nat, strict: bool, before: seq<Structure>)
    requires !IsReached(limit, index) && CreateAt(table, offset).Created?
    requires CreateAt(table, offset).structure.kind != END_OF_TABLE
    ensures var s := CreateAt(table, offset).structure;
      var scan := ScanFrom(table, offset, index, limit, strict);
      var rest := ScanFrom(table, s.End(), index + 1, limit, strict);
      scan.outcome == rest.outcome && before + scan.structures == before + [s] + rest.structures
  {
    var s := CreateAt(table, offset).structure;
    var rest := ScanFrom(table, s.End(), index + 1, limit, strict);
    assert before + ([s] + rest.structures) == before + [s] + rest.structures;
  }

  lemma NothingFits(table: seq<Byte>, offset: nat)
    requires |table| < offset + HEADER_SIZE + 2
    ensures CreateAt(table, offset).Truncated?
  {
  }

  // Entries

  class Entry {
    const structure: Structure
    var next: Entry?
    var seqNext: Entry?
    var seqPrev: Entry?

    constructor (structure: Structure)
      ensures this.structure == structure && next == null && seqNext == null && seqPrev == null
    {
      this.structure := structure;
      next, seqNext, seqPrev := null, null, null;
    }
  }

  ghost function StructuresOf(entries: seq<Entry>): (list: seq<Structure>)
    ensures |list| == |entries| && forall k | 0 <= k < |list| :: list[k] == entries[k].structure
  {
    seq(|entries|, i requires 0 <= i < |entries| => entries[i].structure)
  }

  class Registry {
    const capacity: Size
    const index: array<Entry?>
    var head: Entry?
    var tail: Entry?
    var count: nat
    var scanned: bool
    var truncated: bool
    ghost var entries: seq<Entry>

    ghost predicate Valid()
      reads `head, `tail, `entries, index, entries
    {
      && index.Length == capacity
      && IsInOrder()
      && (forall i {:trigger IsLinked(i)} | 0 <= i < |entries| :: IsLinked(i))
      && (forall b | 0 <= b < capacity :: index[b] == Ref(NextIn(List(), capacity, b, 0)))
    }

    /** The entries are one after another, and each of them is there once. */
    ghost predicate IsInOrder()
      reads `head, `tail, `entries, entries`seqNext, entries`seqPrev
    {
      && (forall i, j | 0 <= i < j < |entries| :: entries[i] != entries[j])
      && head == Ref(if entries == [] then None else Some(0))
      && tail == Ref(if entries == [] then None else Some(|entries| - 1))
      && (forall i {:trigger IsListed(i)} | 0 <= i < |entries| :: IsListed(i))
    }

    ghost function Ref(i: Option<nat>): Entry?
      reads `entries
    {
      if i.Some? && i.value < |entries| then entries[i.value] else null
    }

    /** The next entry of an entry in its chain. */
    ghost predicate IsLinked(i: nat)
      requires i < |entries|
      reads `entries, entries`next
    {
      entries[i].next == Ref(NextIn(List(), capacity, Bucket(entries[i].structure.handle, capacity), i + 1))
    }

    /** The entries next to an entry in the list. */
    ghost predicate IsListed(i: nat)
      requires i < |entries|
      reads `entries, entries`seqNext, entries`seqPrev
    {
      entries[i].seqNext == Ref(Some(i + 1)) && entries[i].seqPrev == (if i == 0 then null else entries[i - 1])
    }

    /** The structures, in the order of the table. */
    ghost function List(): (list: seq<Structure>)
      reads `entries
    {
      StructuresOf(entries)
    }

    ghost function Nodes(): set<Entry>
      reads `entries
    {
      set e | e in entries
    }

    constructor (capacity: Size)
      ensures Valid() && fresh(index) && List() == [] && !scanned && !truncated
      ensures this.capacity == capacity
    {
      this.capacity := capacity;
      index := new Entry?[capacity](_ => null);
      head, tail, count, scanned, truncated, entries := null, null, 0, false, false, [];
    }

    /** A structure which is already there is refused, and nothing else is. */
    method Put(s: Structure) returns (ok: bool)
      requires Valid()
      modifies this`head, this`tail, this`entries, index, Nodes()
      ensures Valid() && fresh(Nodes() - old(Nodes()))
      ensures ok <==> !Holds(old(List()), capacity, s)
      ensures List() == if ok then old(List()) + [s] else old(List())
    {
      hide Bucket;
      var entry := new Entry(s);
      var hash := Bucket(s.handle, capacity);
      var last := index[hash];
      ghost var list, n := List(), |entries|;
      ghost var at := NextIn(list, capacity, hash, 0);
      if last != null {
        while true
          invariant at.Some? && at.value < n && last == entries[at.value]
            && NextIn(list, capacity, hash, at.value) == at
          invariant forall k | 0 <= k < at.value && Bucket(list[k].handle, capacity) == hash ::
            list[k].offset != s.offset
          decreases n - at.value
        {
          assert IsLinked(at.value);
          if last.structure.offset == s.offset {
            return false;
          }
          if last.next == null {
            break;
          }
          last := last.next;
          at := NextIn(list, capacity, hash, at.value + 1);
        }
      }
      forall k | 0 <= k < n && Bucket(list[k].handle, capacity) == hash
        ensures list[k].offset != s.offset
      {
      }
      Append(entry, last, at);
      ok := true;
    }

    /** The entry is hung on the end of its chain and of the list. */
    method Append(entry: Entry, last: Entry?, ghost at: Option<nat>)
      requires Valid() && entry !in entries && entry.next == null && entry.seqNext == null
      requires last == Ref(at) && (at.Some? ==> at.value < |entries|)
      requires at.None? ==> NextIn(List(), capacity, Bucket(entry.structure.handle, capacity), 0).None?
      requires at.Some? ==>
        && Bucket(List()[at.value].handle, capacity) == Bucket(entry.structure.handle, capacity)
        && NextIn(List(), capacity, Bucket(entry.structure.handle, capacity), at.value + 1).None?
      modifies this`head, this`tail, this`entries, index, last, tail, entry
      ensures Valid() && entries == old(entries) + [entry]
      ensures List() == old(List()) + [entry.structure]
    {
      hide Bucket, NextIn, StructuresOf;
      ghost var list, n, s := List(), |entries|, entry.structure;
      var hash := Bucket(entry.structure.handle, capacity);
      if last == null {
        index[hash] := entry;
      } else {
        last.next := entry;
      }
      Extend(entry);
      assert List() == list + [s];
      forall b | 0 <= b < capacity
        ensures index[b] == Ref(NextIn(List(), capacity, b, 0))
      {
        NextInAppended(list, s, capacity, b, 0);
      }
      forall i | 0 <= i < |entries|
        ensures IsLinked(i)
      {
        if i < n {
          assert old(IsLinked(i));
          assert list[i] == entries[i].structure;
          LinksAppended(list, s, capacity, at, i);
        }
      }
    }

    method Extend(entry: Entry)
      requires IsInOrder() && entry !in entries && entry.seqNext == null
      modifies this`head, this`tail, this`entries, tail, entry
      ensures IsInOrder() && entries == old(entries) + [entry]
      ensures entry.next == old(entry.next) && (old(tail) != null ==> old(tail).next == old(tail.next))
    {
      ghost var n := |entries|;
      entry.seqPrev := tail;
      if tail != null {
        tail.seqNext := entry;
      }
      tail := entry;
      if head == null {
        head := entry;
      }
      entries := entries + [entry];
      forall i | 0 <= i < |entries|
        ensures IsListed(i)
      {
        if i < n {
          assert old(IsListed(i));
        }
      }
    }

    /** The first structure in the order of the table with the handle is what is found. */
    method Lookup(handle: nat, kind: Option<nat>, strict: bool) returns (r: Answer)
      requires Valid()
      ensures r == Answered(List(), handle, kind, strict)
    {
      hide Bucket;
      if IsReserved(handle) {
        return Unset;
      }
      var entry := index[Bucket(handle, capacity)];
      ghost var at := NextIn(List(), capacity, Bucket(handle, capacity), 0);
      while entry != null && entry.structure.handle != handle
        invariant entry == Ref(at) && (at.Some? ==> at.value < |entries|)
        invariant at.Some? ==> Bucket(List()[at.value].handle, capacity) == Bucket(handle, capacity)
        invariant forall k | 0 <= k < (if at.Some? then at.value else |entries|) :: List()[k].handle != handle
        decreases if at.Some? then |entries| - at.value else 0
      {
        assert IsLinked(at.value);
        entry := entry.next;
        at := NextIn(List(), capacity, Bucket(handle, capacity), at.value + 1);
      }
      FirstIsFound(List(), handle, at);
      if entry == null {
        return Missing;
      }
      if kind.Some? && kind.value != entry.structure.kind {
        return if handle == 0 && !strict then Unset else WrongKind;
      }
      return Present(entry.structure);
    }

    /** The table is cut into structures, and all of them are put in the registry. */
    method Scan(table: seq<Byte>, limit: nat, strict: bool) returns (ok: bool)
      requires Valid() && (!scanned ==> List() == [])
      modifies this, index, Nodes()
      ensures Valid()
      ensures old(scanned) ==> ok && scanned && List() == old(List())
      ensures !old(scanned) ==>
        var scan := ScanFrom(table, 0, 0, limit, strict);
        && List() == scan.structures && ok == !scan.outcome.Failed?
        && (ok ==> scanned && count == |List()|) && (truncated <==> old(truncated) || scan.outcome.Cut?)
    {
      hide Bucket, Valid, Holds, ScanFrom, CreateAt, NextIn, StructuresOf;
      if scanned {
        return true;
      }
      var offset, i, number := 0, 0, 0;
      ghost var whole := ScanFrom(table, 0, 0, limit, strict);
      while limit == 0 || i < limit
        invariant Valid() && offset <= |table| && i == number == |List()| && !scanned
        invariant truncated == old(truncated)
        invariant fresh(Nodes() - old(Nodes()))
        invariant forall k | 0 <= k < |List()| :: List()[k].offset < offset
        invariant whole.structures == List() + ScanFrom(table, offset, i, limit, strict).structures
        invariant whole.outcome == ScanFrom(table, offset, i, limit, strict).outcome
        invariant limit == 0 || i <= limit
        decreases |table| - offset
      {
        if |table| - offset < HEADER_SIZE + 2 {
          NothingFits(table, offset);
          ScanStops(table, offset, i, limit, strict, List());
          truncated := true;
          break;
        }
        var r := CreateStructure(table, offset);
        if !r.Created? {
          ScanStops(table, offset, i, limit, strict, List());
          if r.BadLength? && strict {
            return false;
          }
          truncated := true;
          break;
        }
        NotHeld(List(), capacity, r.structure);
        if r.structure.kind == END_OF_TABLE {
          ScanEnds(table, offset, i, limit, strict);
        } else {
          ScanGoesOn(table, offset, i, limit, strict, List());
        }
        var put := Put(r.structure);
        assert put;
        number := number + 1;
        if r.structure.kind == END_OF_TABLE {
          break;
        }
        offset := r.structure.End();
        i := i + 1;
      }
      if IsReached(limit, i) {
        ScanStops(table, offset, i, limit, strict, List());
      }
      count := number;
      scanned := true;
      ok := true;
    }
  }

  lemma FirstIsFound(list: seq<Structure>, handle: nat, at: Option<nat>)
    requires at.Some? ==> at.value < |list| && list[at.value].handle == handle
    requires forall k | 0 <= k < (if at.Some? then at.value else |list|) :: list[k].handle != handle
    ensures FirstWith(list, handle, 0) == at
  {
  }

  // Iteration

  class Cursor {
    const registry: Registry
    const filter: Option<Structure -> bool>
    var position: Entry?
    var isDone: bool
    ghost var at: nat

    /** The entries before an index have been passed: the position is the last of them. */
    ghost predicate Valid()
      reads this, registry, registry.index, registry.entries
    {
      && registry.Valid() && at <= |registry.entries|
      && (!isDone ==> position == (if at == 0 then null else registry.entries[at - 1]))
      && (isDone ==> at == |registry.entries|)
    }

    /** What is still to be told. */
    ghost function Remaining(): seq<Structure>
      requires Valid()
      reads this, registry, registry.index, registry.entries
    {
      Filtered(registry.List()[at..], filter)
    }

    constructor (registry: Registry, filter: Option<Structure -> bool>)
      requires registry.Valid()
      ensures Valid() && this.registry == registry && this.filter == filter
      ensures Remaining() == Filtered(registry.List(), filter)
    {
      this.registry, this.filter := registry, filter;
      position, isDone, at := null, false, 0;
      new;
      assert registry.List()[0..] == registry.List();
    }

    /** The first entry from another one on which passes the filter. */
    method Pass(from: Entry?, ghost start: nat) returns (entry: Entry?, ghost stop: nat)
      requires Valid() && start <= |registry.entries| && from == registry.Ref(Some(start))
      ensures start <= stop <= |registry.entries| && entry == registry.Ref(Some(stop))
      ensures var rest := Filtered(registry.List()[start..], filter);
        && (entry == null ==> rest == [])
        && (entry != null ==>
              && Passes(filter, entry.structure)
              && rest == [entry.structure] + Filtered(registry.List()[stop + 1..], filter))
    {
      entry, stop := from, start;
      while filter.Some? && entry != null && !filter.value(entry.structure)
        invariant start <= stop <= |registry.entries| && entry == registry.Ref(Some(stop))
        invariant Filtered(registry.List()[stop..], filter) == Filtered(registry.List()[start..], filter)
        decreases |registry.entries| - stop
      {
        assert registry.IsListed(stop);
        assert registry.List()[stop..][1..] == registry.List()[stop + 1..];
        entry, stop := entry.seqNext, stop + 1;
      }
      if entry != null {
        assert registry.List()[stop..][1..] == registry.List()[stop + 1..];
      }
    }

    method Following() returns (entry: Entry?)
      requires Valid() && !isDone
      ensures entry == registry.Ref(Some(at))
    {
      if position == null {
        entry := registry.head;
      } else {
        assert registry.IsListed(at - 1);
        entry := position.seqNext;
      }
    }

    /** There is a next structure exactly when there is one still to be told. */
    method HasNext() returns (r: bool)
      requires Valid()
      ensures r <==> Remaining() != []
    {
      if isDone {
        return false;
      }
      var next := Following();
      ghost var stop;
      next, stop := Pass(next, at);
      return next != null;
    }

    lemma NothingAfterAll()
      requires registry.Valid()
      ensures Filtered(registry.List()[|registry.entries|..], filter) == []
    {
    }

    /** The structures are told one by one, and after the last of them nothing is. */
    method Next() returns (r: Option<Structure>)
      requires Valid()
      modifies this
      ensures Valid()
      ensures r == if old(Remaining()) == [] then None else Some(old(Remaining())[0])
      ensures Remaining() == if old(Remaining()) == [] then [] else old(Remaining())[1..]
    {
      hide Bucket, Registry.Valid, StructuresOf, Filtered, Passes;
      NothingAfterAll();
      if isDone {
        return None;
      }
      var next := Following();
      ghost var stop;
      next, stop := Pass(next, at);
      position := next;
      if position == null {
        isDone, at := true, |registry.entries|;
        return None;
      }
      at := stop + 1;
      return Some(position.structure);
    }
  }

  /** Told till the end, a cursor tells exactly the structures its filter lets through. */
  method Collect(cursor: Cursor) returns (list: seq<Structure>)
    requires cursor.Valid()
    modifies cursor
    ensures list == old(cursor.Remaining()) && cursor.Valid() && cursor.Remaining() == []
  {
    hide Cursor.Valid, Cursor.Remaining;
    list := [];
    var more := cursor.HasNext();
    while more
      invariant cursor.Valid() && old(cursor.Remaining()) == list + cursor.Remaining()
      invariant more <==> cursor.Remaining() != []
      decreases |cursor.Remaining()|
    {
      var s := cursor.Next();
      list := list + [s.value];
      more := cursor.HasNext();
    }
  }

  /** The filtered list keeps the order and has exactly the structures which pass. */
  lemma {:induction false} FilteredIsExact(list: seq<Structure>, filter: Option<Structure -> bool>, s: Structure)
    ensures multiset(Filtered(list, filter))[s] == if Passes(filter, s) then multiset(list)[s] else 0
  {
    if list != [] {
      FilteredIsExact(list[1..], filter, s);
      assert list == [list[0]] + list[1..];
    }
  }
}
