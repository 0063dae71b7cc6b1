/**
 Members of a decoded structure which are replaced while it is encoded, and put
 back afterwards (libopendmi/src/anonymize.c).
 */
module SavedMembers {
  import opened Bytes
  import opened Anonymization

  const MEMBER_MAX: nat := 16

  /** What a member has been before it was replaced. */
  datatype Saved = Saved(at: nat, bytes: seq<Byte>)

  predicate Fits(saved: seq<Saved>, size: nat) {
    forall k | 0 <= k < |saved| :: saved[k].at + |saved[k].bytes| <= size
  }

  /** Members put back one by one, the one saved last first. */
  function Undone(memory: seq<Byte>, saved: seq<Saved>): (r: seq<Byte>)
    requires Fits(saved, |memory|)
    ensures |r| == |memory|
    decreases |saved|
  {
    if saved == [] then memory
    else
      var last := saved[|saved| - 1];
      Undone(Overwrite(memory, last.at, last.bytes), saved[..|saved| - 1])
  }

  /** A member to be replaced: where it is, how long, and whether it is a UUID. */
  datatype Member = Member(at: nat, size: nat, isUuid: bool)

  /** The version and the variant of a UUID are kept: the high bits of its bytes 7 and 8. */
  predicate KeepsVersion(data: seq<Byte>, replaced: seq<Byte>)
    requires |data| == |replaced| == 16
  {
    replaced[7] / 16 == data[7] / 16 && replaced[8] / 64 == data[8] / 64
  }

  function UuidKept(data: seq<Byte>, replaced: seq<Byte>): (r: seq<Byte>)
    requires |data| == |replaced| == 16
    ensures |r| == 16 && KeepsVersion(data, r)
  {
    replaced[7 := replaced[7] % 16 + data[7] / 16 * 16][8 := replaced[8] % 64 + data[8] / 64 * 64]
  }

  /** A blank replacement gets its lowest bit changed. */
  function NotBlank(replaced: seq<Byte>): (r: seq<Byte>)
    requires |replaced| > 1
    ensures |r| == |replaced| && !IsBlank(r) && r[1..] == replaced[1..]
  {
    if !IsBlank(replaced) then replaced
    else
      var r := replaced[0 := if replaced[0] % 2 == 0 then replaced[0] + 1 else replaced[0] - 1];
      assert r[1] != r[0];
      r
  }

  function Replacement(data: seq<Byte>, draw: nat -> nat, isUuid: bool): (r: seq<Byte>)
    requires |data| > 1 && (isUuid ==> |data| == 16)
    ensures |r| == |data|
  {
    var replaced := BytesOf(data, draw, 0);
    NotBlank(if isUuid then UuidKept(data, replaced) else replaced)
  }

  lemma ReplacementStands(data: seq<Byte>, draw: nat -> nat, isUuid: bool)
    requires |data| > 1 && (isUuid ==> |data| == 16)
    ensures !IsBlank(Replacement(data, draw, isUuid))
    ensures isUuid ==> KeepsVersion(data, Replacement(data, draw, isUuid))
  {
    if isUuid {
      var kept := UuidKept(data, BytesOf(data, draw, 0));
      var r := NotBlank(kept);
      assert r[1..][6] == kept[1..][6] && r[1..][7] == kept[1..][7];
    }
  }

  predicate IsIn(m: Member, size: nat) {
    m.at + m.size <= size && (m.isUuid ==> m.size == 16)
  }

  predicate AreIn(members: seq<Member>, size: nat) {
    forall k | 0 <= k < |members| :: IsIn(members[k], size)
  }

  function ValueOf(memory: seq<Byte>, m: Member): (data: seq<Byte>)
    requires IsIn(m, |memory|)
    ensures |data| == m.size
  {
    memory[m.at..m.at + m.size]
  }

  /** A member which is too long to be saved, or holds no value, is left alone. */
  predicate IsReplaced(memory: seq<Byte>, m: Member)
    requires IsIn(m, |memory|)
  {
    0 < m.size <= MEMBER_MAX && !IsBlank(ValueOf(memory, m))
  }

  function WithOne(memory: seq<Byte>, m: Member, draws: seq<Byte> -> nat -> nat): (r: seq<Byte>)
    requires IsIn(m, |memory|)
    ensures |r| == |memory|
  {
    if !IsReplaced(memory, m) then memory
    else Overwrite(memory, m.at, Replacement(ValueOf(memory, m), draws(ValueOf(memory, m)), m.isUuid))
  }

  /** Members are replaced one after another, each as it is when its turn comes. */
  function WithAll(memory: seq<Byte>, members: seq<Member>, draws: seq<Byte> -> nat -> nat): (r: seq<Byte>)
    requires AreIn(members, |memory|)
    ensures |r| == |memory|
  {
    if members == [] then memory
    else
      var n := |members| - 1;
      WithOne(WithAll(memory, members[..n], draws), members[n], draws)
  }

  /** Some member is replaced in its turn. */
  predicate IsAnyReplaced(memory: seq<Byte>, members: seq<Member>, draws: seq<Byte> -> nat -> nat)
    requires AreIn(members, |memory|)
  {
    exists k :: 0 <= k < |members| && IsReplacedInTurn(memory, members, k, draws)
  }

  predicate IsReplacedInTurn(memory: seq<Byte>, members: seq<Member>, k: nat, draws: seq<Byte> -> nat -> nat)
    requires AreIn(members, |memory|) && k < |members|
  {
    IsReplaced(WithAll(memory, members[..k], draws), members[k])
  }

  /** Turns do not depend on the members after them. */
  lemma TurnIsSame(memory: seq<Byte>, members: seq<Member>, n: nat, k: nat, draws: seq<Byte> -> nat -> nat)
    requires AreIn(members, |memory|) && k < n <= |members|
    ensures IsReplacedInTurn(memory, members[..n], k, draws) <==> IsReplacedInTurn(memory, members, k, draws)
  {
    hide IsReplaced, WithAll;
    assert members[..n][..k] == members[..k];
  }

  lemma LastIsNotReplaced(memory: seq<Byte>, members: seq<Member>, draws: seq<Byte> -> nat -> nat)
    requires AreIn(members, |memory|) && members != [] && !IsAnyReplaced(memory, members, draws)
    ensures WithAll(memory, members, draws) == WithAll(memory, members[..|members| - 1], draws)
  {
    assert !IsReplacedInTurn(memory, members, |members| - 1, draws);
  }

  /** As long as no member is replaced, they are as they were. */
  lemma {:induction false} NoneIsReplaced(memory: seq<Byte>, members: seq<Member>, draws: seq<Byte> -> nat -> nat)
    requires AreIn(members, |memory|) && !IsAnyReplaced(memory, members, draws)
    ensures WithAll(memory, members, draws) == memory
    decreases |members|
  {
    hide IsReplacedInTurn, WithOne, IsReplaced;
    if members != [] {
      var n := |members| - 1;
      forall k | 0 <= k < n
        ensures !IsReplacedInTurn(memory, members[..n], k, draws)
      {
        TurnIsSame(memory, members, n, k, draws);
      }
      LastIsNotReplaced(memory, members, draws);
      NoneIsReplaced(memory, members[..n], draws);
    }
  }

  class Members {
    const memory: array<Byte>
    var saved: seq<Saved>

    ghost predicate Valid()
      reads `saved
    {
      Fits(saved, memory.Length)
    }

    constructor (memory: array<Byte>)
      ensures this.memory == memory && saved == [] && Valid()
    {
      this.memory, saved := memory, [];
    }

    method CopyInto(at: nat, bytes: seq<Byte>)
      requires at + |bytes| <= memory.Length
      modifies memory
      ensures memory[..] == Overwrite(old(memory[..]), at, bytes)
    {
      for i := 0 to |bytes|
        invariant memory[..] == Overwrite(old(memory[..]), at, bytes[..i])
      {
        memory[at + i] := bytes[i];
      }
      assert bytes[..|bytes|] == bytes;
    }

    /**
     A member is replaced only after it has been saved, and the replacement is
     never one which stands for no value.
     */
    method Replace(m: Member, draws: seq<Byte> -> nat -> nat) returns (changed: bool)
      requires Valid() && IsIn(m, memory.Length)
      modifies `saved, memory
      ensures Valid()
      ensures Undone(memory[..], saved) == old(Undone(memory[..], saved))
      ensures changed == IsReplaced(old(memory[..]), m)
      ensures memory[..] == WithOne(old(memory[..]), m, draws)
      ensures changed ==>
        && !IsBlank(ValueOf(memory[..], m))
        && (m.isUuid ==> KeepsVersion(ValueOf(old(memory[..]), m), ValueOf(memory[..], m)))
        && forall p | 0 <= p < memory.Length && !(m.at <= p < m.at + m.size) :: memory[p] == old(memory[p])
    {
      hide Replacement, IsBlank, KeepsVersion;
      if m.size == 0 || m.size > MEMBER_MAX {
        return false;
      }
      var data := memory[m.at..m.at + m.size];
      assert data == ValueOf(memory[..], m);
      if IsBlank(data) {
        return false;
      }
      SomeBytes(data);
      saved := saved + [Saved(m.at, data)];
      var replaced := Replacement(data, draws(data), m.isUuid);
      ReplacementStands(data, draws(data), m.isUuid);
      ghost var before := memory[..];
      CopyInto(m.at, replaced);
      SavedIsUndone(before, old(saved), m.at, data, replaced);
      assert ValueOf(memory[..], m) == replaced;
      return true;
    }

    /** Members are put back in the reverse order. */
    method Restore()
      requires Valid()
      modifies `saved, memory
      ensures saved == [] && Valid() && memory[..] == old(Undone(memory[..], saved))
    {
      while saved != []
        invariant Valid() && Undone(memory[..], saved) == old(Undone(memory[..], saved))
        decreases |saved|
      {
        var last := saved[|saved| - 1];
        saved := saved[..|saved| - 1];
        CopyInto(last.at, last.bytes);
      }
    }

    /**
     Whatever members are replaced, twice or overlapping, the structure is
     encoded with all the replacements, if there are any, and left as it was.
     */
    method ReplaceAll(members: seq<Member>, draws: seq<Byte> -> nat -> nat, encode: seq<Byte> -> bool)
      returns (ok: bool, changed: bool, seen: seq<Byte>)
      requires saved == [] && AreIn(members, memory.Length)
      modifies `saved, memory
      ensures memory[..] == old(memory[..]) && saved == []
      ensures seen == WithAll(old(memory[..]), members, draws)
      ensures changed == IsAnyReplaced(old(memory[..]), members, draws)
      ensures ok == (!changed || encode(seen))
      ensures !changed ==> seen == old(memory[..])
    {
      hide WithOne, IsReplaced;
      ghost var before := memory[..];
      changed := false;
      assert members[..0] == [];
      for k := 0 to |members|
        invariant Valid() && Undone(memory[..], saved) == before
        invariant memory[..] == WithAll(before, members[..k], draws)
        invariant changed == IsAnyReplaced(before, members[..k], draws)
      {
        assert members[..k + 1][..k] == members[..k];
        OneMoreMember(before, members, k, draws);
        var one := Replace(members[k], draws);
        changed := changed || one;
      }
      assert members[..|members|] == members;
      seen := memory[..];
      ok := !changed || encode(seen);
      if !changed {
        NoneIsReplaced(before, members, draws);
      }
      Restore();
    }
  }

  lemma SomeBytes(data: seq<Byte>)
    requires !IsBlank(data)
    ensures |data| > 1
  {
  }

  lemma OneMoreMember(memory: seq<Byte>, members: seq<Member>, n: nat, draws: seq<Byte> -> nat -> nat)
    requires AreIn(members, |memory|) && n < |members|
    ensures IsAnyReplaced(memory, members[..n + 1], draws)
       <==> IsAnyReplaced(memory, members[..n], draws)
            || IsReplaced(WithAll(memory, members[..n], draws), members[n])
  {
    hide IsReplacedInTurn;
    var more := members[..n + 1];
    forall k | 0 <= k < n
      ensures IsReplacedInTurn(memory, more, k, draws) <==> IsReplacedInTurn(memory, members[..n], k, draws)
    {
      TurnIsSame(memory, members, n + 1, k, draws);
      TurnIsSame(memory, members, n, k, draws);
    }
    LastTurn(memory, members, n, draws);
  }

  lemma LastTurn(memory: seq<Byte>, members: seq<Member>, n: nat, draws: seq<Byte> -> nat -> nat)
    requires AreIn(members, |memory|) && n < |members|
    ensures IsReplacedInTurn(memory, members[..n + 1], n, draws)
       <==> IsReplaced(WithAll(memory, members[..n], draws), members[n])
  {
    hide IsReplaced, WithAll;
    assert members[..n + 1][..n] == members[..n];
  }

  lemma SavedIsUndone(memory: seq<Byte>, saved: seq<Saved>, at: nat, data: seq<Byte>, replaced: seq<Byte>)
    requires Fits(saved, |memory|) && at + |data| <= |memory| && |replaced| == |data| && data == memory[at..at + |data|]
    ensures Fits(saved + [Saved(at, data)], |memory|)
    ensures Undone(Overwrite(memory, at, replaced), saved + [Saved(at, data)]) == Undone(memory, saved)
  {
    var all := saved + [Saved(at, data)];
    assert all[..|all| - 1] == saved;
    assert Overwrite(Overwrite(memory, at, replaced), at, data) == memory;
  }
}
