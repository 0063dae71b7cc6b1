/**
 Blocks of memory the elements of arrays are held in: what a decode allocates,
 a release frees (libopendmi/src/field-decode.c, libopendmi/src/field.c).
 */
module ArrayBlocks {
  import opened Wrappers
  import opened Schema
  import W = WellFormed

  /** The memory of a structure, as far as blocks go: where they are, and how many elements count. */
  datatype Cell =
    | Block(address: nat, elements: seq<map<Id, Cell>>)
    | Count(count: nat)
    | Part(members: map<Id, Cell>)
    | Row(rows: seq<map<Id, Cell>>)

  type Memory = map<Id, Cell>

  function BlockAt(memory: Memory, id: Id): Option<Cell> {
    if id in memory && memory[id].Block? then Some(memory[id]) else None
  }

  function CountAt(memory: Memory, id: Id): nat {
    if id in memory && memory[id].Count? then memory[id].count else 0
  }

  function PartAt(memory: Memory, id: Id): Memory {
    if id in memory && memory[id].Part? then memory[id].members else map[]
  }

  function RowAt(memory: Memory, id: Id, k: nat): Memory {
    if id in memory && memory[id].Row? && k < |memory[id].rows| then memory[id].rows[k] else map[]
  }

  /** Elements of an array which count. */
  function ElementsOf(f: Field, memory: Memory): seq<Memory>
    requires f.Array?
  {
    var block := BlockAt(memory, f.member.id);
    if block.None? then []
    else block.value.elements[..Min(CountAt(memory, f.counter.id), |block.value.elements|)]
  }

  /** Elements of a vector are held in place. */
  function RowsOf(f: Field, memory: Memory): (rows: seq<Memory>)
    requires f.Vector?
    ensures |rows| == f.count
  {
    seq(f.count, k requires 0 <= k < f.count => RowAt(memory, f.member.id, k))
  }

  // Ownership

  /** Addresses of all the blocks a list of fields leads to, each as many times as it is led to. */
  function Owned(fs: seq<Field>, i: nat, memory: Memory): multiset<nat>
    decreases fs, 1, |fs| - i
  {
    if i >= |fs| then multiset{} else OwnedBy(fs[i], memory) + Owned(fs, i + 1, memory)
  }

  function OwnedBy(f: Field, memory: Memory): multiset<nat>
    decreases f, 1
  {
    match f
    case Array(m, _, _, _, _, _, _, _, fields) =>
      var block := BlockAt(memory, m.id);
      if block.None? then multiset{} else multiset{block.value.address} + OwnedByAll(fields, ElementsOf(f, memory))
    case Vector(_, _, fields) => OwnedByAll(fields, RowsOf(f, memory))
    case Struct(m, fields) => Owned(fields, 0, PartAt(memory, m.id))
    case _ => multiset{}
  }

  function OwnedByAll(fs: seq<Field>, elements: seq<Memory>): multiset<nat>
    decreases fs, 2, |elements|
  {
    if elements == [] then multiset{}
    else OwnedByAll(fs, elements[..|elements| - 1]) + Owned(fs, 0, elements[|elements| - 1])
  }

  /** No more elements count than the block has. */
  predicate AreCounted(fs: seq<Field>, memory: Memory)
    decreases fs, 1
  {
    forall i | 0 <= i < |fs| :: IsCounted(fs[i], memory)
  }

  predicate IsCounted(f: Field, memory: Memory)
    decreases f, 0
  {
    match f
    case Array(m, counter, _, _, _, _, _, _, fields) =>
      BlockAt(memory, m.id).Some? ==>
        && CountAt(memory, counter.id) <= |BlockAt(memory, m.id).value.elements|
        && forall k | 0 <= k < |ElementsOf(f, memory)| :: AreCounted(fields, ElementsOf(f, memory)[k])
    case Vector(_, count, fields) => forall k | 0 <= k < count :: AreCounted(fields, RowsOf(f, memory)[k])
    case Struct(m, fields) => AreCounted(fields, PartAt(memory, m.id))
    case _ => true
  }

  /** Members a field with elements or fields of its own uses. */
  function MembersOf(f: Field): set<Id> {
    match f
    case Array(m, counter, _, _, _, _, _, _, _) => {m.id, counter.id}
    case Vector(m, _, _) => {m.id}
    case Struct(m, _) => {m.id}
    case _ => {}
  }

  /** Fields of a list use members of their own. */
  predicate AreApart(fs: seq<Field>)
    decreases fs, 1
  {
    && (forall i, j | 0 <= i < j < |fs| :: MembersOf(fs[i]) !! MembersOf(fs[j]))
    && (forall i | 0 <= i < |fs| :: IsApart(fs[i]))
  }

  predicate IsApart(f: Field)
    decreases f, 0
  {
    match f
    case Array(m, counter, _, _, _, _, _, _, fields) => m.id != counter.id && AreApart(fields)
    case Vector(_, _, fields) => AreApart(fields)
    case Struct(_, fields) => AreApart(fields)
    case _ => true
  }

  /** Fields the engine takes do. */
  lemma {:induction false} WellFormedAreApart(fs: seq<Field>, version: Version)
    requires W.IsWellFormed(fs, version)
    ensures AreApart(fs)
    decreases fs
  {
    forall i, j | 0 <= i < j < |fs|
      ensures MembersOf(fs[i]) !! MembersOf(fs[j])
    {
      MembersAreWritten(fs[i]);
      MembersAreWritten(fs[j]);
    }
    forall i | 0 <= i < |fs|
      ensures IsApart(fs[i])
    {
      assert W.IsFieldOk(fs[i]);
      if |W.NestedOf(fs[i])| > 0 {
        WellFormedAreApart(W.NestedOf(fs[i]), version);
      } else {
        assert W.NestedOf(fs[i]) == [];
      }
    }
  }

  lemma MembersAreWritten(f: Field)
    ensures MembersOf(f) <= W.Writes(f)
    ensures MembersOf(f) != {} ==> !IsExtended(f) && forall version :: IsDefined(f, version)
  {
  }

  /** Memory nothing has been decoded into leads to no blocks. */
  predicate IsZeroed(f: Field, memory: Memory) {
    forall k | k in MembersOf(f) :: k !in memory
  }

  predicate AreZeroed(fs: seq<Field>, from: nat, memory: Memory) {
    forall i | from <= i < |fs| :: IsZeroed(fs[i], memory)
  }

  /** Two memories differ in the members of one field only. */
  ghost predicate IsOnly(a: Memory, b: Memory, f: Field) {
    forall k | k !in MembersOf(f) :: (k in a <==> k in b) && (k in a ==> a[k] == b[k])
  }

  lemma SameBy(f: Field, a: Memory, b: Memory)
    requires forall k | k in MembersOf(f) :: (k in a <==> k in b) && (k in a ==> a[k] == b[k])
    ensures OwnedBy(f, a) == OwnedBy(f, b) && (IsCounted(f, a) <==> IsCounted(f, b))
  {
    hide Owned, OwnedByAll, AreCounted;
    match f
    case Array(m, counter, _, _, _, _, _, _, _) =>
      assert m.id in MembersOf(f) && counter.id in MembersOf(f);
      assert BlockAt(a, m.id) == BlockAt(b, m.id) && ElementsOf(f, a) == ElementsOf(f, b);
    case Vector(m, count, fields) =>
      assert m.id in MembersOf(f);
      assert RowsOf(f, a) == RowsOf(f, b);
    case Struct(m, _) =>
      assert m.id in MembersOf(f);
    case _ =>
  }

  // Sums

  lemma Regroup<T>(h: multiset<T>, x: multiset<T>, a: multiset<T>, y: multiset<T>, b: multiset<T>)
    requires x + a == y + b
    ensures (h + x) + a == (h + y) + b
  {
    assert (h + x) + a == h + (x + a);
    assert (h + y) + b == h + (y + b);
  }

  lemma Exchange<T>(p: multiset<T>, q: multiset<T>, o: multiset<T>)
    ensures (q + o) + p == (p + o) + q
  {
  }

  lemma Cancel<T>(x: multiset<T>, y: multiset<T>, o: multiset<T>)
    requires x + o == y + o
    ensures x == y
  {
    assert (x + o) - o == x && (y + o) - o == y;
  }

  /** What is left of a whole as a part of it is taken away. */
  lemma Remainder<T>(whole: multiset<T>, left: multiset<T>, rest: multiset<T>, all: multiset<T>, others: multiset<T>,
                     part: multiset<T>)
    requires whole == rest + all && left + part == whole && others + part == all
    ensures left == rest + others
  {
    assert left + part == (rest + others) + part;
    Cancel(left, rest + others, part);
  }

  lemma Regrouped<T>(left: multiset<T>, part: multiset<T>, had: multiset<T>, gone: multiset<T>, whole: multiset<T>)
    requires left + part == had && had + gone == whole
    ensures left + (gone + part) == whole
  {
    assert left + (gone + part) == (left + part) + gone;
  }

  /** A part which has not been taken away is still there. */
  lemma StillThere<T>(whole: multiset<T>, left: multiset<T>, gone: multiset<T>, part: multiset<T>, all: multiset<T>)
    requires left + gone == whole && gone + part <= all && all <= whole
    ensures part <= left
  {
    forall x
      ensures part[x] <= left[x]
    {
      assert left[x] + gone[x] == whole[x] && (gone + part)[x] <= all[x] <= whole[x];
    }
  }

  /** What one field of a list owns is all that changes with its members. */
  lemma {:induction false} OwnedChanges(fs: seq<Field>, i: nat, j: nat, a: Memory, b: Memory)
    requires AreApart(fs) && i < |fs| && IsOnly(a, b, fs[i])
    ensures Owned(fs, j, b) + (if j <= i then OwnedBy(fs[i], a) else multiset{})
         == Owned(fs, j, a) + (if j <= i then OwnedBy(fs[i], b) else multiset{})
    decreases |fs| - j
  {
    hide OwnedBy, IsOnly, IsApart;
    if j < |fs| {
      OwnedChanges(fs, i, j + 1, a, b);
      if j == i {
        assert Owned(fs, j + 1, a) == Owned(fs, j + 1, b) by {
          Cancel(Owned(fs, j + 1, a), Owned(fs, j + 1, b), multiset{});
        }
        Exchange(OwnedBy(fs[i], a), OwnedBy(fs[i], b), Owned(fs, j + 1, a));
      } else {
        OthersAreSame(fs, i, j, a, b);
        Regroup(OwnedBy(fs[j], a), Owned(fs, j + 1, b), if j <= i then OwnedBy(fs[i], a) else multiset{},
                Owned(fs, j + 1, a), if j <= i then OwnedBy(fs[i], b) else multiset{});
      }
    }
  }

  lemma OthersAreSame(fs: seq<Field>, i: nat, j: nat, a: Memory, b: Memory)
    requires AreApart(fs) && i < |fs| && j < |fs| && i != j && IsOnly(a, b, fs[i])
    ensures OwnedBy(fs[j], a) == OwnedBy(fs[j], b) && (IsCounted(fs[j], a) <==> IsCounted(fs[j], b))
  {
    assert MembersOf(fs[j]) !! MembersOf(fs[i]);
    SameBy(fs[j], a, b);
  }

  /** A field which has owned nothing adds what it owns. */
  lemma OwnedGrows(fs: seq<Field>, i: nat, a: Memory, b: Memory)
    requires AreApart(fs) && i < |fs| && IsOnly(a, b, fs[i]) && AreZeroed(fs, i, a)
    ensures Owned(fs, 0, b) == Owned(fs, 0, a) + OwnedBy(fs[i], b)
  {
    hide OwnedBy, Owned, IsOnly, IsApart, IsZeroed;
    OwnedChanges(fs, i, 0, a, b);
    NothingOwnedBy(fs[i], a);
    assert Owned(fs, 0, b) + multiset{} == Owned(fs, 0, b);
  }

  lemma IsNext(fs: seq<Field>, i: nat, memory: Memory)
    requires AreApart(fs) && i < |fs| && AreZeroed(fs, i, memory)
    ensures IsApart(fs[i]) && IsZeroed(fs[i], memory)
  {
    hide IsApart, IsZeroed;
  }

  lemma Gained<T>(now: multiset<T>, had: multiset<T>, rest: multiset<T>, before: multiset<T>, after: multiset<T>,
                  more: multiset<T>)
    requires had == rest + before && now == had + more && after == before + more
    ensures now == rest + after
  {
  }

  /** A field which owns nothing any more leaves what the others own. */
  lemma OwnedIsGone(fs: seq<Field>, i: nat, a: Memory, b: Memory)
    requires AreApart(fs) && i < |fs| && IsOnly(a, b, fs[i]) && OwnedBy(fs[i], b) == multiset{}
    requires Owned(fs, 0, a) == Owned(fs, i, a)
    ensures Owned(fs, 0, b) + OwnedBy(fs[i], a) == Owned(fs, 0, a) && Owned(fs, 0, b) == Owned(fs, i + 1, b)
  {
    hide OwnedBy, IsOnly, AreApart;
    OwnedChanges(fs, i, 0, a, b);
    OwnedChanges(fs, i, i + 1, a, b);
    Cancel(Owned(fs, i + 1, b), Owned(fs, i + 1, a), multiset{});
    assert Owned(fs, i, a) == OwnedBy(fs[i], a) + Owned(fs, i + 1, a);
    assert Owned(fs, 0, b) + OwnedBy(fs[i], a) == Owned(fs, i + 1, b) + OwnedBy(fs[i], a);
    Cancel(Owned(fs, 0, b), Owned(fs, i + 1, b), OwnedBy(fs[i], a));
  }

  lemma CountedChange(fs: seq<Field>, i: nat, a: Memory, b: Memory)
    requires AreApart(fs) && i < |fs| && IsOnly(a, b, fs[i]) && AreCounted(fs, a) && IsCounted(fs[i], b)
    ensures AreCounted(fs, b)
  {
    forall j | 0 <= j < |fs|
      ensures IsCounted(fs[j], b)
    {
      if j != i {
        OthersAreSame(fs, i, j, a, b);
      }
    }
  }

  lemma {:induction false} ZerosOwnNothing(fs: seq<Field>, elements: seq<Memory>, n: nat)
    requires n <= |elements| && forall k | n <= k < |elements| :: elements[k] == map[]
    ensures OwnedByAll(fs, elements) == OwnedByAll(fs, elements[..n]) && AreCounted(fs, map[])
    decreases fs, 2, |elements|
  {
    NothingOwned(fs, 0, map[]);
    if |elements| == n {
      assert elements[..n] == elements;
    } else {
      var most := elements[..|elements| - 1];
      ZerosOwnNothing(fs, most, n);
      assert most[..n] == elements[..n];
    }
  }

  /** Zeroed memory owns nothing. */
  lemma {:induction false} NothingOwned(fs: seq<Field>, i: nat, memory: Memory)
    requires AreZeroed(fs, i, memory)
    ensures Owned(fs, i, memory) == multiset{} && (i == 0 ==> AreCounted(fs, memory))
    decreases fs, 1, |fs| - i
  {
    forall j | i <= j < |fs|
      ensures OwnedBy(fs[j], memory) == multiset{} && IsCounted(fs[j], memory)
    {
      assert IsZeroed(fs[j], memory);
      NothingOwnedBy(fs[j], memory);
    }
    if i < |fs| {
      NothingOwned(fs, i + 1, memory);
    }
  }

  lemma {:induction false} NothingOwnedBy(f: Field, memory: Memory)
    requires IsZeroed(f, memory)
    ensures OwnedBy(f, memory) == multiset{} && IsCounted(f, memory)
    decreases f, 0
  {
    match f
    case Array(m, _, _, _, _, _, _, _, _) =>
      assert m.id in MembersOf(f);
    case Vector(m, count, fields) =>
      assert m.id in MembersOf(f);
      ZerosOwnNothing(fields, RowsOf(f, memory), 0);
    case Struct(m, fields) =>
      assert m.id in MembersOf(f);
      NothingOwned(fields, 0, map[]);
    case _ =>
  }

  lemma NothingOfNone(fs: seq<Field>)
    ensures OwnedByAll(fs, []) == multiset{}
  {
  }

  /** Elements own together what each of them owns. */
  lemma {:induction false} OwnedUpTo(fs: seq<Field>, elements: seq<Memory>, k: nat)
    requires k < |elements|
    ensures OwnedByAll(fs, elements[..k + 1]) == OwnedByAll(fs, elements[..k]) + Owned(fs, 0, elements[k])
    ensures OwnedByAll(fs, elements[..k + 1]) <= OwnedByAll(fs, elements)
    decreases |elements|
  {
    assert elements[..k + 1][..k] == elements[..k];
    if k + 1 == |elements| {
      assert elements[..k + 1] == elements;
    } else {
      var most := elements[..|elements| - 1];
      OwnedUpTo(fs, most, k);
      assert most[..k + 1] == elements[..k + 1];
    }
  }

  // Memory

  /** Addresses allocated and not freed, and answers of the data: how much there is, and whether it is any good. */
  class Heap {
    const answers: nat -> nat
    var asked: nat
    var next: nat
    var live: set<nat>

    ghost predicate Valid()
      reads `live, `next
    {
      forall a | a in live :: a < next
    }

    constructor (answers: nat -> nat)
      ensures Valid() && live == {} && this.answers == answers
    {
      this.answers, asked, next, live := answers, 0, 0, {};
    }

    /** Whatever the data says. */
    method Ask() returns (answer: nat)
      modifies `asked
    {
      answer := answers(asked);
      asked := asked + 1;
    }

    method Allocate() returns (address: nat)
      requires Valid()
      modifies `live, `next
      ensures Valid() && address !in old(live) && live == old(live) + {address}
      ensures multiset(live) == multiset(old(live)) + multiset{address}
    {
      address := next;
      live, next := live + {address}, next + 1;
    }

    /** Nothing is freed which has not been allocated, or has been freed already. */
    method Free(address: nat)
      requires Valid() && address in live
      modifies `live
      ensures Valid() && live == old(live) - {address}
      ensures multiset(live) + multiset{address} == multiset(old(live))
    {
      live := live - {address};
    }

    // Decoding

    /** However far a list is decoded, all that has been allocated is what it leads to. */
    method DecodeList(fs: seq<Field>, memory: Memory) returns (ok: bool, filled: Memory)
      requires Valid() && AreApart(fs) && AreZeroed(fs, 0, memory)
      modifies this
      ensures Valid() && multiset(live) == multiset(old(live)) + Owned(fs, 0, filled) && AreCounted(fs, filled)
      decreases fs, 4
    {
      hide Owned, OwnedBy, AreCounted, IsOnly, AreApart, IsZeroed;
      filled := memory;
      NothingOwned(fs, 0, memory);
      for i := 0 to |fs|
        invariant Valid() && AreCounted(fs, filled) && AreZeroed(fs, i, filled)
        invariant multiset(live) == multiset(old(live)) + Owned(fs, 0, filled)
      {
        ghost var before, had := filled, multiset(live);
        IsNext(fs, i, filled);
        ok, filled := DecodeOne(fs[i], filled);
        OwnedGrows(fs, i, before, filled);
        Gained(multiset(live), had, multiset(old(live)), Owned(fs, 0, before), Owned(fs, 0, filled),
               OwnedBy(fs[i], filled));
        CountedChange(fs, i, before, filled);
        StillZeroed(fs, i, before, filled);
        if !ok {
          return;
        }
      }
      ok := true;
    }

    method DecodeOne(f: Field, memory: Memory) returns (ok: bool, filled: Memory)
      requires Valid() && IsApart(f) && IsZeroed(f, memory)
      modifies this
      ensures Valid() && IsOnly(memory, filled, f) && IsCounted(f, filled)
      ensures multiset(live) == multiset(old(live)) + OwnedBy(f, filled)
      decreases f, 3
    {
      filled := memory;
      NothingOwnedBy(f, memory);
      match f
      case Array(_, _, _, _, _, _, _, _, _) =>
        ok, filled := DecodeArray(f, memory);
      case Vector(_, _, _) =>
        ok, filled := DecodeVector(f, memory);
      case Struct(m, fields) =>
        var part: Memory;
        ok, part := DecodeList(fields, map[]);
        filled := memory[m.id := Part(part)];
      case _ =>
        var answer := Ask();
        ok := answer != 0;
    }

    method DecodeVector(f: Field, memory: Memory) returns (ok: bool, filled: Memory)
      requires Valid() && f.Vector? && IsApart(f) && IsZeroed(f, memory)
      modifies this
      ensures Valid() && IsOnly(memory, filled, f) && IsCounted(f, filled)
      ensures multiset(live) == multiset(old(live)) + OwnedBy(f, filled)
      decreases f, 2
    {
      var rows;
      ok, rows := DecodeRows(f.fields, f.count);
      filled := memory[f.member.id := Row(rows)];
      assert f.member.id in MembersOf(f) && RowsOf(f, filled) == rows;
    }

    method DecodeRows(fs: seq<Field>, count: nat) returns (ok: bool, rows: seq<Memory>)
      requires Valid() && AreApart(fs)
      modifies this
      ensures Valid() && |rows| == count
      ensures multiset(live) == multiset(old(live)) + OwnedByAll(fs, rows)
      ensures forall k | 0 <= k < count :: AreCounted(fs, rows[k])
      decreases fs, 5
    {
      hide Owned, OwnedByAll, AreApart, AreCounted;
      rows, ok := seq(count, _ => map[]), true;
      ZerosOwnNothing(fs, rows, 0);
      NothingOfNone(fs);
      assert rows[..0] == [];
      var k := 0;
      while k < count && ok
        invariant 0 <= k <= count == |rows| && Valid()
        invariant multiset(live) == multiset(old(live)) + OwnedByAll(fs, rows[..k])
        invariant forall l | 0 <= l < k :: AreCounted(fs, rows[l])
        invariant forall l | k <= l < count :: rows[l] == map[]
        decreases count - k
      {
        var row: Memory;
        ok, row := DecodeList(fs, rows[k]);
        ghost var before := rows;
        rows := rows[k := row];
        assert rows[..k] == before[..k];
        OwnedUpTo(fs, rows, k);
        k := k + 1;
      }
      ZerosOwnNothing(fs, rows, k);
    }

    /** The block is what elements are decoded into; those which are not there in full do not count. */
    method DecodeArray(f: Field, memory: Memory) returns (ok: bool, filled: Memory)
      requires Valid() && f.Array? && IsApart(f) && IsZeroed(f, memory)
      modifies this
      ensures Valid() && IsOnly(memory, filled, f) && IsCounted(f, filled)
      ensures multiset(live) == multiset(old(live)) + OwnedBy(f, filled)
      decreases f, 2
    {
      assert f.member.id in MembersOf(f) && f.counter.id in MembersOf(f);
      filled := memory;
      var header := Ask();
      if header == 0 {
        return false, filled;
      }
      filled := filled[f.counter.id := Count(0)];
      var count := Ask();
      var skipped := Ask();
      var last := Ask();
      ok := last != 0;
      if count == 0 || skipped != 0 {
        return;
      }
      var address := Allocate();
      var elements, n, good := DecodeElements(f, count);
      filled := filled[f.member.id := Block(address, elements)][f.counter.id := Count(n)];
      assert ElementsOf(f, filled) == elements[..n];
      ok := ok && good;
    }

    method DecodeElements(f: Field, count: nat) returns (elements: seq<Memory>, n: nat, ok: bool)
      requires Valid() && f.Array? && AreApart(f.fields)
      modifies this
      ensures Valid() && n <= |elements| == count
      ensures multiset(live) == multiset(old(live)) + OwnedByAll(f.fields, elements[..n])
      ensures forall k | 0 <= k < n :: AreCounted(f.fields, elements[k])
      decreases f, 1
    {
      elements, n := seq(count, _ => map[]), 0;
      while n < count
        invariant 0 <= n <= |elements| == count && Valid()
        invariant multiset(live) == multiset(old(live)) + OwnedByAll(f.fields, elements[..n])
        invariant forall k | 0 <= k < n :: AreCounted(f.fields, elements[k])
        invariant forall k | n <= k < count :: elements[k] == map[]
        decreases count - n
      {
        var element: Memory;
        ok, element := DecodeElement(f, elements[n]);
        ghost var before := elements;
        elements := elements[n := element];
        assert elements[..n] == before[..n];
        if !ok {
          return;
        }
        OwnedUpTo(f.fields, elements, n);
        n := n + 1;
      }
      ok := true;
    }

    /** What an element which is not there in full has allocated is freed at once. */
    method DecodeElement(f: Field, element: Memory) returns (ok: bool, filled: Memory)
      requires Valid() && f.Array? && AreApart(f.fields) && element == map[]
      modifies this
      ensures Valid()
      ensures ok ==> multiset(live) == multiset(old(live)) + Owned(f.fields, 0, filled) && AreCounted(f.fields, filled)
      ensures !ok ==> multiset(live) == multiset(old(live)) && Owned(f.fields, 0, filled) == multiset{}
      decreases f, 0
    {
      var there := Ask();
      if there == 0 {
        NothingOwned(f.fields, 0, element);
        return false, element;
      }
      ok, filled := DecodeList(f.fields, element);
      if !ok {
        filled := ReleaseList(f.fields, filled);
      }
    }

    // Release

    /** All that a list leads to is freed, and it leads to nothing any more. */
    method ReleaseList(fs: seq<Field>, memory: Memory) returns (cleared: Memory)
      requires Valid() && AreApart(fs) && AreCounted(fs, memory) && Owned(fs, 0, memory) <= multiset(live)
      modifies this
      ensures Valid() && multiset(live) + Owned(fs, 0, memory) == multiset(old(live))
      ensures Owned(fs, 0, cleared) == multiset{} && AreCounted(fs, cleared)
      decreases fs, 2
    {
      cleared := memory;
      ghost var rest := multiset(live) - Owned(fs, 0, memory);
      for i := 0 to |fs|
        invariant Valid() && AreCounted(fs, cleared) && multiset(live) == rest + Owned(fs, 0, cleared)
        invariant Owned(fs, 0, cleared) == Owned(fs, i, cleared)
      {
        ghost var before, had := cleared, multiset(live);
        OwnedFrom(fs, i, before, had, rest);
        cleared := ReleaseOne(fs[i], cleared);
        OwnedIsGone(fs, i, before, cleared);
        CountedChange(fs, i, before, cleared);
        Remainder(had, multiset(live), rest, Owned(fs, 0, before), Owned(fs, 0, cleared), OwnedBy(fs[i], before));
      }
    }

    lemma OwnedFrom(fs: seq<Field>, i: nat, memory: Memory, had: multiset<nat>, rest: multiset<nat>)
      requires i < |fs| && Owned(fs, 0, memory) == Owned(fs, i, memory) && had == rest + Owned(fs, 0, memory)
      requires AreApart(fs) && AreCounted(fs, memory)
      ensures OwnedBy(fs[i], memory) <= had && IsApart(fs[i]) && IsCounted(fs[i], memory)
    {
      hide OwnedBy, IsCounted, IsApart;
    }

    method ReleaseOne(f: Field, memory: Memory) returns (cleared: Memory)
      requires Valid() && IsApart(f) && IsCounted(f, memory) && OwnedBy(f, memory) <= multiset(live)
      modifies this
      ensures Valid() && IsOnly(memory, cleared, f) && IsCounted(f, cleared)
      ensures multiset(live) + OwnedBy(f, memory) == multiset(old(live)) && OwnedBy(f, cleared) == multiset{}
      ensures f.Array? ==> BlockAt(cleared, f.member.id).None?
      decreases f, 1
    {
      cleared := memory;
      match f
      case Array(_, _, _, _, _, _, _, _, _) =>
        cleared := ReleaseArray(f, memory);
      case Vector(m, count, fields) =>
        var rows := RowsOf(f, memory);
        rows := ReleaseAll(fields, rows);
        cleared := memory[m.id := Row(rows)];
        assert RowsOf(f, cleared) == rows;
      case Struct(m, fields) =>
        var part := ReleaseList(fields, PartAt(memory, m.id));
        cleared := memory[m.id := Part(part)];
      case _ =>
    }

    method ReleaseAll(fs: seq<Field>, elements: seq<Memory>) returns (cleared: seq<Memory>)
      requires Valid() && AreApart(fs) && forall k | 0 <= k < |elements| :: AreCounted(fs, elements[k])
      requires OwnedByAll(fs, elements) <= multiset(live)
      modifies this
      ensures Valid() && multiset(live) + OwnedByAll(fs, elements) == multiset(old(live))
      ensures |cleared| == |elements| && OwnedByAll(fs, cleared) == multiset{}
      ensures forall k | 0 <= k < |cleared| :: AreCounted(fs, cleared[k])
      decreases fs, 3
    {
      hide Owned, AreCounted, AreApart, OwnedByAll;
      cleared := elements;
      NothingOfNone(fs);
      assert elements[..0] == [];
      for k := 0 to |elements|
        invariant Valid() && |cleared| == |elements|
        invariant multiset(live) + OwnedByAll(fs, elements[..k]) == multiset(old(live))
        invariant OwnedByAll(fs, cleared[..k]) == multiset{}
        invariant forall l | 0 <= l < |cleared| :: AreCounted(fs, cleared[l])
        invariant forall l | k <= l < |cleared| :: cleared[l] == elements[l]
      {
        OwnedUpTo(fs, elements, k);
        StillThere(multiset(old(live)), multiset(live), OwnedByAll(fs, elements[..k]), Owned(fs, 0, elements[k]),
                   OwnedByAll(fs, elements));
        ghost var had := multiset(live);
        var element := ReleaseList(fs, cleared[k]);
        Regrouped(multiset(live), Owned(fs, 0, elements[k]), had, OwnedByAll(fs, elements[..k]), multiset(old(live)));
        ghost var before := cleared;
        cleared := cleared[k := element];
        assert cleared[..k] == before[..k];
        OwnedUpTo(fs, cleared, k);
      }
      assert elements[..|elements|] == elements && cleared[..|cleared|] == cleared;
    }

    method ReleaseArray(f: Field, memory: Memory) returns (cleared: Memory)
      requires Valid() && f.Array? && IsApart(f) && IsCounted(f, memory) && OwnedBy(f, memory) <= multiset(live)
      modifies this
      ensures Valid() && IsOnly(memory, cleared, f) && IsCounted(f, cleared)
      ensures multiset(live) + OwnedBy(f, memory) == multiset(old(live)) && OwnedBy(f, cleared) == multiset{}
      ensures BlockAt(cleared, f.member.id).None?
      decreases f, 0
    {
      assert f.member.id in MembersOf(f) && f.counter.id in MembersOf(f);
      cleared := memory;
      var block := BlockAt(memory, f.member.id);
      if block.None? {
        return;
      }
      hide OwnedByAll, AreCounted, AreApart;
      var elements := ElementsOf(f, memory);
      ghost var all := OwnedByAll(f.fields, elements);
      var released := ReleaseAll(f.fields, elements);
      var address := block.value.address;
      StillThere(multiset(old(live)), multiset(live), all, multiset{address}, OwnedBy(f, memory));
      assert multiset{address}[address] == 1;
      ghost var had := multiset(live);
      Free(address);
      Regrouped(multiset(live), multiset{address}, had, all, multiset(old(live)));
      cleared := memory - {f.member.id};
      cleared := cleared[f.counter.id := Count(0)];
    }

    /**
     After a decode, failed or not, and a release, all that has been allocated
     has been freed, and nothing else has.
     */
    method DecodeAndRelease(fs: seq<Field>) returns (ok: bool, cleared: Memory)
      requires Valid() && AreApart(fs)
      modifies this
      ensures Valid() && live == old(live) && Owned(fs, 0, cleared) == multiset{}
    {
      var filled: Memory;
      ok, filled := DecodeList(fs, map[]);
      cleared := ReleaseList(fs, filled);
      Cancel(multiset(live), multiset(old(live)), Owned(fs, 0, filled));
      SameSets(live, old(live));
    }
  }

  lemma SameSets(a: set<nat>, b: set<nat>)
    requires multiset(a) == multiset(b)
    ensures a == b
  {
    forall x
      ensures x in a <==> x in b
    {
      assert x in a <==> x in multiset(a);
      assert x in b <==> x in multiset(b);
    }
  }

  lemma StillZeroed(fs: seq<Field>, i: nat, a: Memory, b: Memory)
    requires AreApart(fs) && i < |fs| && IsOnly(a, b, fs[i]) && AreZeroed(fs, i, a)
    ensures AreZeroed(fs, i + 1, b)
  {
    forall j | i < j < |fs|
      ensures IsZeroed(fs[j], b)
    {
      assert IsZeroed(fs[j], a) && MembersOf(fs[i]) !! MembersOf(fs[j]);
    }
  }
}
