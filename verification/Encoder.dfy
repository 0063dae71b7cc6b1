/**
 The encoding half of the engine as it runs: a writer over a growing buffer, a
 cursor over the source kept in step with it, an accumulator of bits and a list
 of strings changed in place (libopendmi/src/field-encode.c,
 libopendmi/src/encoder.c). Every method is proved to do what the
 specification of encoding says.
 */
module EncodingEngine {
  import opened Wrappers
  import opened Bytes
  import opened BitRuns
  import opened Schema
  import opened Buffers
  import opened Words
  import opened DecodingEngine
  import E = Encoding

  // Bytes copied one at a time

  lemma CopyOneMore(t: E.Target, w: E.Writing, n: nat)
    requires t.Valid()
    ensures E.Copy(t, E.Copy(t, w, n), 1) == E.Copy(t, w, n + 1)
  {
    hide E.Reserved;
    var w' := E.Copy(t, w, n);
    ReservedOneMore(t, w, w', n);
    Associative(w.out, E.Reserved(t, w, n), E.Reserved(t, w', 1));
  }

  lemma ReservedOneMore(t: E.Target, w: E.Writing, w': E.Writing, n: nat)
    requires t.Valid() && w'.pos == w.pos + Min(n, E.Remaining(t, w))
    ensures E.Reserved(t, w, n + 1) == E.Reserved(t, w, n) + E.Reserved(t, w', 1)
  {
    ReservedOne(t, w');
    if n < E.Remaining(t, w) {
      assert E.Reserved(t, w, n + 1) == t.body[w.pos..w.pos + n + 1];
      assert E.Reserved(t, w, n) == t.body[w.pos..w.pos + n];
    } else {
      assert E.Remaining(t, w') == 0;
      assert Zeros(n + 1 - E.Remaining(t, w)) == Zeros(n - E.Remaining(t, w)) + [0];
    }
  }

  lemma ReservedOne(t: E.Target, w: E.Writing)
    requires t.Valid()
    ensures E.Reserved(t, w, 1) == if E.Remaining(t, w) >= 1 then E.Ahead(t, w, 1) else [0]
  {
  }

  lemma AppendedAt(s: seq<Byte>, base: nat, data: seq<Byte>)
    requires base <= |s|
    ensures Overwritten(s, |s|, data) == s + data
    ensures (s + data)[base..|s| + |data|] == s[base..] + data && (s + data)[..base] == s[..base]
  {
    AppendedIsConcat(s, data);
  }

  lemma WrittenOver(s: seq<Byte>, base: nat, length: nat, data: seq<Byte>)
    requires |data| <= length && base + length <= |s|
    ensures (s[..base] + (data + s[base + |data|..]))[base..base + length] == data + s[base..base + length][|data|..]
  {
  }

  lemma OverwrittenWithin(s: seq<Byte>, base: nat, data: seq<Byte>)
    requires base + |data| <= |s|
    ensures Overwritten(s, base, data) == s[..base] + (data + s[base + |data|..])
  {
  }

  lemma NothingCopied(t: E.Target, w: E.Writing)
    requires t.Valid()
    ensures E.Copy(t, w, 0) == w && E.Put(t, w, []) == w
  {
    assert w.out + [] == w.out;
  }

  /** Writing bytes leaves the bits gathered alone. */
  lemma PutIsApart(t: E.Target, w: E.Writing, data: seq<Byte>, bits: seq<bool>, taken: nat)
    ensures E.Put(t, w.(bits := bits, taken := taken), data) == E.Put(t, w, data).(bits := bits, taken := taken)
  {
  }

  // The accumulator

  /** Bits shifted above the ones there are come behind them. */
  lemma BitsAreShifted(value: nat, count: nat, raw: nat, more: nat)
    requires value < Pow2(count)
    ensures ToBits(value + Low(raw, more) * Pow2(count), count + more) == ToBits(value, count) + ToBits(raw, more)
    ensures value + Low(raw, more) * Pow2(count) < Pow2(count + more)
  {
    hide ToBits, FromBits, Low, Pow2;
    var bits := ToBits(value, count) + ToBits(raw, more);
    FromConcat(ToBits(value, count), ToBits(raw, more));
    WholeNumber(value, count);
    FromToBits(raw, more);
    assert FromBits(bits) == value + Low(raw, more) * Pow2(count);
    ToFromBits(bits);
    BitsAreBounded(bits);
  }

  /** The accumulator has room for the widest range behind the bits of a byte begun. */
  lemma RoomForBits(count: nat)
    requires count < 64
    ensures Pow2(count) < WORD_LIMIT
  {
    PowersGrow(count, 63);
    EightMore(0);
    EightMore(8);
    EightMore(16);
    EightMore(24);
    EightMore(32);
    EightMore(40);
    EightMore(48);
    EightMore(56);
    assert Pow2(64) == 2 * Pow2(63);
  }

  lemma EightMore(n: nat)
    ensures Pow2(n + 8) == 256 * Pow2(n)
  {
    assert Pow2(n + 4) == 16 * Pow2(n) by {
      assert Pow2(n + 2) == 4 * Pow2(n);
    }
    assert Pow2(n + 8) == 16 * Pow2(n + 4) by {
      assert Pow2(n + 6) == 4 * Pow2(n + 4);
    }
  }

  lemma {:induction false} PowersGrow(a: nat, b: nat)
    requires a <= b
    ensures Pow2(a) <= Pow2(b)
    decreases b
  {
    if a < b {
      PowersGrow(a, b - 1);
    }
  }

  // Extended fields

  /** Every other member a choice governs fits its plain field. */
  method GovernedFit(fs: seq<Field>, at: nat, info: Info, key: Id) returns (fit: Option<bool>)
    ensures fit == E.GovernedFit(fs, at, info, key, 0)
  {
    hide Governs, E.ValueData;
    var i := 0;
    while i < |fs|
      invariant 0 <= i <= |fs| && E.GovernedFit(fs, at, info, key, i) == E.GovernedFit(fs, at, info, key, 0)
    {
      if i != at && !IsExtended(fs[i]) && Governs(fs, fs[i], key) {
        var value := E.ValueData(fs[i], info, None);
        if value.None? {
          return None;
        }
        if !value.value.1 {
          return Some(false);
        }
      }
      i := i + 1;
    }
    return Some(true);
  }

  /** First extended field of the member of a plain one. */
  method ExtendedOf(fs: seq<Field>, key: Id) returns (other: Option<nat>)
    ensures other == E.ExtendedOf(fs, key, 0)
  {
    var i := 0;
    while i < |fs|
      invariant 0 <= i <= |fs| && E.ExtendedOf(fs, key, i) == E.ExtendedOf(fs, key, 0)
    {
      if IsExtended(fs[i]) && Key(fs[i]) == key {
        return Some(i);
      }
      i := i + 1;
    }
    return None;
  }

  /** Bytes a list of fields occupies, zero if the data decides it. */
  method FieldsSize(fs: seq<Field>) returns (size: nat)
    ensures size == E.FieldsSize(fs)
    decreases fs
  {
    size := 0;
    var bits := 0;
    var i := 0;
    while i < |fs|
      invariant 0 <= i <= |fs| && 0 <= bits && E.SizeFrom(fs, i, size, bits) == E.FieldsSize(fs)
    {
      var f := fs[i];
      if f.Bits? {
        bits := bits + f.width;
      } else if f.Pad? {
        size := size + E.UnitBytes(bits, f.unit);
        bits := 0;
      } else if f.Skip? {
        size := size + f.length;
      } else if f.Struct? || f.Vector? {
        var nested := FieldsSize(f.fields);
        if nested == 0 {
          return 0;
        }
        size := size + nested * if f.Vector? then f.count else 1;
      } else if !f.Group? && !f.Offset? && !f.Preset? {
        if Width(f) == 0 {
          return 0;
        }
        size := size + Width(f);
      }
      i := i + 1;
    }
  }

  class Encoder {
    const writer: Writer
    const source: Reader
    const preserve: bool
    const version: Version
    const stored: seq<Option<seq<Byte>>>
    ghost const before: seq<Byte>

    var strings: seq<Option<seq<Byte>>>
    var bitsValue: nat
    var bitsCount: nat
    var bitsTaken: nat
    var stopped: bool

    /** The structure is written at the end of a buffer, and what there is before it stays. */
    ghost predicate Valid()
      reads this, writer, writer.buffer, writer.buffer.data, source, source.buffer
    {
      && writer.Valid() && writer.buffer.Contents()[..writer.base] == before && writer.bound.None?
        && writer.buffer.length == writer.base + writer.position
      && source.Valid() && writer.buffer != source.buffer && writer.buffer.data != source.buffer.data
      && bitsCount < 8 && bitsValue < Pow2(bitsCount)
    }

    ghost function Footprint(): (r: set<object>)
      reads this, writer, writer.buffer
    {
      {this, writer, writer.buffer, writer.buffer.data, source}
    }

    ghost function Target(): (t: E.Target)
      requires Valid()
      reads this, writer, writer.buffer, writer.buffer.data, source, source.buffer, source.buffer.data
      ensures t.Valid() && t.preserve == preserve && t.version == version && t.strings == stored
      ensures t.end == source.length
    {
      E.Target(preserve, source.Range(), source.length, version, stored)
    }

    ghost function State(): (w: E.Writing)
      requires Valid()
      reads this, writer, writer.buffer, writer.buffer.data, source, source.buffer
      ensures w.taken == bitsTaken && w.stopped == stopped && w.strings == strings && |w.bits| == bitsCount
      ensures |w.out| == writer.position
      ensures w.bits == ToBits(bitsValue, bitsCount) && bitsCount < 8 && bitsValue < Pow2(bitsCount)
    {
      E.Writing(writer.Written(), source.position, ToBits(bitsValue, bitsCount), bitsTaken, stopped, strings)
    }

    constructor (writer: Writer, source: Reader, preserve: bool, version: Version, stored: seq<Option<seq<Byte>>>)
      requires writer.Valid() && writer.bound.None? && writer.buffer.length == writer.base + writer.position
      requires source.Valid() && writer.buffer != source.buffer && writer.buffer.data != source.buffer.data
      ensures Valid() && this.writer == writer && this.source == source && this.preserve == preserve
      ensures before == writer.buffer.Contents()[..writer.base]
      ensures Target() == E.Target(preserve, source.Range(), source.length, version, stored)
      ensures State() == E.Writing(writer.Written(), source.position, [], 0, false, [])
    {
      this.writer, this.source, this.preserve, this.version, this.stored := writer, source, preserve, version, stored;
      strings, bitsValue, bitsCount, bitsTaken, stopped := [], 0, 0, 0, false;
      before := writer.buffer.Contents()[..writer.base];
    }

    /** All of the buffer the structure is written into. */
    ghost function Whole(): (s: seq<Byte>)
      requires Valid()
      reads this, writer, writer.buffer, writer.buffer.data, source, source.buffer
      ensures s == before + State().out && s == writer.buffer.Contents()
    {
      assert writer.buffer.Contents() == writer.buffer.Contents()[..writer.base] + writer.Written();
      writer.buffer.Contents()
    }

    method Remaining() returns (n: nat)
      requires Valid()
      ensures n == E.Remaining(Target(), State())
    {
      n := if preserve then source.Remaining() else 0;
    }

    method Tell() returns (n: nat)
      requires Valid()
      ensures n == |State().out|
    {
      n := writer.position;
    }

    /** Source stays in step with what is written, for as long as it lasts. */
    method PutBytes(data: seq<Byte>)
      requires Valid()
      modifies Footprint()
      ensures Valid() && Target() == old(Target()) && fresh(Footprint() - old(Footprint()))
      ensures State() == E.Put(Target(), old(State()), data)
    {
      hide ToBits, Pow2, Valid, State, Target;
      if data == [] {
        NothingCopied(Target(), State());
        return;
      }
      Append(data);
      var remaining := Remaining();
      if remaining > 0 {
        SkipSource(if |data| < remaining then |data| else remaining);
      }
    }

    method Append(data: seq<Byte>)
      requires Valid()
      modifies Footprint()
      ensures Valid() && Target() == old(Target()) && fresh(Footprint() - old(Footprint()))
      ensures State() == old(State()).(out := old(State()).out + data)
    {
      hide ToBits, Pow2, Overwritten;
      ghost var contents := writer.buffer.Contents();
      AppendedAt(contents, writer.base, data);
      assert writer.Written() == contents[writer.base..];
      var ok := writer.PutBytes(data);
      assert writer.buffer.Contents() == contents + data;
      assert writer.Written() == contents[writer.base..] + data;
    }

    method SkipSource(count: nat)
      requires Valid() && count <= E.Remaining(Target(), State())
      modifies source`position
      ensures Valid() && Target() == old(Target()) && Footprint() == old(Footprint())
      ensures State() == old(State()).(pos := old(State()).pos + count)
    {
      hide ToBits, Pow2;
      var ok := source.Skip(count);
    }

    method Peek(length: nat) returns (ok: bool, data: seq<Byte>)
      requires Valid()
      ensures preserve ==> (ok <==> length <= E.Remaining(Target(), State()))
      ensures !preserve ==> !ok
      ensures ok ==> data == E.Ahead(Target(), State(), length)
    {
      ok, data := false, [];
      if preserve {
        ok, data := source.GetBytesAt(source.position, length);
      }
    }

    /** Bytes the model does not hold are the source's own, and zeros past its end. */
    method Copy(length: nat)
      requires Valid()
      modifies Footprint()
      ensures Valid() && Target() == old(Target()) && fresh(Footprint() - old(Footprint()))
      ensures State() == E.Copy(Target(), old(State()), length)
    {
      hide Valid, Target, State, E.Put;
      ghost var t, w := Target(), State();
      NothingCopied(t, w);
      var i := 0;
      while i < length
        invariant 0 <= i <= length && Valid() && Target() == t && fresh(Footprint() - old(Footprint()))
        invariant State() == E.Copy(t, w, i)
      {
        var got, data := Peek(1);
        CopyOneMore(t, w, i);
        ReservedOne(t, State());
        PutBytes(if got then data else [0]);
        i := i + 1;
      }
    }

    method PutRaw(width: nat, raw: nat) returns (ok: bool)
      requires Valid()
      modifies Footprint()
      ensures Valid() && Target() == old(Target()) && fresh(Footprint() - old(Footprint()))
      ensures var r := E.PutRaw(Target(), old(State()), width, raw);
        ok == r.Some? && (ok ==> State() == r.value)
    {
      hide Valid, Target, State, E.Put;
      if width == 0 || width > 8 {
        return false;
      }
      var data := StoreNumber(raw, width);
      PutBytes(data);
      ok := true;
    }

    method PeekRaw(width: nat) returns (raw: Option<nat>)
      requires Valid()
      ensures raw == E.PeekRaw(Target(), State(), width)
    {
      hide Valid, Target, State, LeLoad;
      if width > 8 {
        return None;
      }
      var got, data := Peek(width);
      if !got {
        return None;
      }
      var number := LoadNumber(data);
      raw := Some(number);
    }

    // Runs of bits

    /** The accumulator never overflows, and bytes are written as it fills them. */
    method PutBits(raw: nat, count: nat) returns (ok: bool)
      requires Valid()
      modifies Footprint()
      ensures Valid() && Target() == old(Target()) && fresh(Footprint() - old(Footprint()))
      ensures var r := E.PutBits(Target(), old(State()), raw, count);
        ok == r.Some? && (ok ==> State() == r.value)
    {
      hide ToBits, Low, Pow2;
      if count == 0 || count > E.BITS_MAX {
        return false;
      }
      BitsAreShifted(bitsValue, bitsCount, raw, count);
      RoomForBits(bitsCount + count);
      var value := bitsValue + Low(raw, count) * Pow2(bitsCount);
      assert value < WORD_LIMIT;
      Flush(value, bitsCount + count, bitsTaken + count);
      ok := true;
    }

    /** Bytes the accumulator has filled are written, the lowest one first. */
    method Flush(value: nat, count: nat, taken: nat)
      requires Valid() && value < Pow2(count)
      modifies Footprint()
      ensures Valid() && Target() == old(Target()) && fresh(Footprint() - old(Footprint()))
      ensures State() == E.Flush(Target(), old(State()).(bits := ToBits(value, count), taken := taken))
    {
      hide ToBits, FromBits, Pow2, Low, Shr, E.Put;
      ghost var t, w := Target(), State().(bits := ToBits(value, count), taken := taken);
      var left: nat, v: nat := count, value;
      while left >= 8
        invariant Valid() && Target() == t && fresh(Footprint() - old(Footprint())) && v < Pow2(left)
        invariant E.Flush(t, State().(bits := ToBits(v, left), taken := taken)) == E.Flush(t, w)
      {
        ghost var before := State();
        BitsAreSplit(v, left, 8);
        EightBitsAreAByte(ToBits(v, left)[..8]);
        PutBytes([Low(v, 8)]);
        PutIsApart(t, before, [Low(v, 8)], ToBits(v, left)[8..], taken);
        v := Shr(v, 8);
        left := left - 8;
      }
      bitsValue, bitsCount, bitsTaken := v, left, taken;
    }

    /** Bits the source holds at the position of the next range. */
    method SourceBits(count: nat) returns (raw: nat)
      requires Valid() && preserve
      ensures raw == E.SourceBits(Target(), State(), count)
    {
      hide Valid, Target, State, LeLoad, Shr, Low;
      var length := (bitsCount + count + 7) / 8;
      if length > 8 {
        return 0;
      }
      var got, data := Peek(length);
      if !got {
        return 0;
      }
      var value := LoadNumber(data);
      raw := Low(Shr(value, bitsCount), count);
    }

    // Strings

    /** Equal strings are shared in the canonical mode, and are kept apart in the preserve one. */
    method AddString(text: seq<Byte>) returns (number: nat)
      requires Valid()
      modifies this`strings
      ensures Valid() && Target() == old(Target())
      ensures var r := E.AddString(Target(), old(strings), text); number == r.1 && strings == r.0
      ensures State() == old(State()).(strings := strings)
    {
      hide ToBits, Pow2;
      if !preserve {
        var i := 0;
        while i < |strings|
          invariant 0 <= i <= |strings| && E.FindString(strings, text, i) == E.FindString(strings, text, 0)
        {
          if strings[i] == Some(text) {
            return i + 1;
          }
          i := i + 1;
        }
      }
      strings := strings + [Some(text)];
      number := |strings|;
    }

    method PutString(text: Text) returns (ok: bool)
      requires Valid() && !text.NoText?
      modifies Footprint()
      ensures Valid() && Target() == old(Target()) && fresh(Footprint() - old(Footprint()))
      ensures var r := E.PutString(Target(), old(State()), text);
        ok == r.Some? && (ok ==> State() == r.value)
    {
      hide Valid, Target, State, E.Put, E.AddString;
      var known := text.Stored? && text.index < |stored| && stored[text.index].Some?;
      if text.Stored? && !known {
        return false;
      }
      if known && preserve {
        if text.index + 1 > 255 {
          return false;
        }
        PutBytes([text.index + 1]);
        return true;
      }
      var number := AddString(if known then stored[text.index].value else text.bytes);
      if number > 255 {
        return false;
      }
      PutBytes([number]);
      return true;
    }

    // Values

    /** Data the source carries at the field being written. */
    method SourceData(f: Field) returns (data: Option<Data>)
      requires Valid()
      ensures data == E.SourceData(Target(), State(), f)
    {
      hide Valid, Target, State, E.SourceBits, E.PeekRaw;
      if !preserve {
        return None;
      }
      if f.Bits? {
        var remaining := Remaining();
        if remaining < (bitsCount + f.width + 7) / 8 {
          return None;
        }
        var raw := SourceBits(f.width);
        return Some(Data(raw, NoText, []));
      }
      if f.String? {
        var got, bytes := Peek(1);
        if !got {
          return None;
        }
        return Some(TextData(stored, bytes[0]));
      }
      if f.Raw? && f.extent.Fixed? {
        var got, bytes := Peek(f.extent.length);
        return if got then Some(Data(0, NoText, bytes)) else None;
      }
      var raw := PeekRaw(Width(f));
      return if raw.Some? then Some(Data(raw.value, NoText, [])) else None;
    }

    method PutData(f: Field, data: Data) returns (ok: bool)
      requires Valid()
      modifies Footprint()
      ensures Valid() && Target() == old(Target()) && fresh(Footprint() - old(Footprint()))
      ensures var r := E.PutData(Target(), old(State()), f, data);
        ok == r.Some? && (ok ==> State() == r.value)
    {
      hide Valid, Target, State, E.Put, E.Copy, E.PutRaw, E.PutString;
      if f.String? {
        if data.number != 0 || data.text.NoText? {
          PutBytes([data.number % 256]);
          return true;
        }
        ok := PutString(data.text);
      } else if f.Raw? && f.extent.Fixed? {
        if |data.bytes| == 0 {
          Copy(f.extent.length);
          return true;
        }
        if |data.bytes| < f.extent.length {
          return false;
        }
        PutBytes(data.bytes[..f.extent.length]);
        return true;
      } else {
        ok := PutRaw(Width(f), data.number);
      }
    }

    method EncodeBcd(f: Field, info: Info) returns (ok: bool)
      requires Valid() && f.Bcd?
      modifies Footprint()
      ensures Valid() && Target() == old(Target()) && fresh(Footprint() - old(Footprint()))
      ensures var r := E.EncodeFixed(Target(), old(State()), f, info);
        ok == r.Some? && (ok ==> State() == r.value)
    {
      hide Valid, Target, State, E.Put, BcdSpell, Pow100, LeStore, Pow256;
      if f.length > 8 {
        return false;
      }
      var number := Load(info, f.member);
      if f.unknown != 0 && number == MemberMax(f.member) {
        ok := PutRaw(f.length, f.unknown);
        return;
      }
      var digits, left := SpellDigits(number, f.length);
      if left != 0 {
        return false;
      }
      ok := PutRaw(f.length, digits);
    }

    method EncodeFixed(f: Field, info: Info) returns (ok: bool)
      requires Valid() && E.IsFixed(f)
      modifies Footprint()
      ensures Valid() && Target() == old(Target()) && fresh(Footprint() - old(Footprint()))
      ensures var r := E.EncodeFixed(Target(), old(State()), f, info);
        ok == r.Some? && (ok ==> State() == r.value)
    {
      hide Valid, Target, State, E.Put, BcdSpell, Pow100, E.PutRaw;
      if f.Uuid? {
        PutBytes(SwapUuid(UuidAt(info, f.member.id)));
        ok := true;
      } else if f.Raw? {
        PutBytes(BinaryAt(info, f.member.id));
        ok := true;
      } else {
        ok := EncodeBcd(f, info);
      }
    }

    // Scalar fields

    method EncodeGoverning(fs: seq<Field>, i: nat, info: Info, choices: seq<Choice>, c: nat,
                           original: Option<Data>, data: Data, exact: bool)
      returns (ok: bool, chosen: seq<Choice>)
      requires Valid() && i < |fs| && c < |choices|
      modifies Footprint()
      ensures Valid() && Target() == old(Target()) && fresh(Footprint() - old(Footprint()))
      ensures var r := E.EncodeGoverning(Target(), old(State()), fs, i, info, choices, c, original, data, exact);
        ok == r.Some? && (ok ==> (State(), chosen) == r.value)
    {
      hide Valid, Target, State, E.PutData, E.GovernedFit;
      chosen := choices;
      var choice := choices[c];
      var fits := Some(false);
      if exact && data.number != choice.whenRaw {
        fits := GovernedFit(fs, i, info, choice.key);
        if fits.None? {
          return false, choices;
        }
      }
      var extended := !fits.value || (original.Some? && original.value.number == choice.whenRaw);
      ok := PutData(fs[i], if extended then data.(number := choice.whenRaw) else data);
      chosen := choices[c := choice.(extended := extended)];
    }

    method EncodePlain(fs: seq<Field>, i: nat, choices: seq<Choice>, data: Data) returns (ok: bool)
      requires Valid() && i < |fs|
      modifies Footprint()
      ensures Valid() && Target() == old(Target()) && fresh(Footprint() - old(Footprint()))
      ensures var r := E.EncodePlain(Target(), old(State()), fs, i, choices, data);
        ok == r.Some? && (ok ==> (State(), choices) == r.value)
    {
      hide Valid, Target, State, E.PutData, E.ExtendedOf, E.Copy;
      var other := ExtendedOf(fs, Key(fs[i]));
      var c := None;
      if other.Some? {
        c := FindChoice(choices, WhenKey(fs[other.value]));
      }
      var pointed := c.Some? && choices[c.value].extended;
      if pointed && preserve {
        Copy(Width(fs[i]));
        return true;
      }
      ok := PutData(fs[i], if pointed then data.(number := choices[c.value].whenRaw) else data);
    }

    method EncodeScalar(fs: seq<Field>, i: nat, info: Info, choices: seq<Choice>)
      returns (ok: bool, chosen: seq<Choice>)
      requires Valid() && i < |fs|
      modifies Footprint()
      ensures Valid() && Target() == old(Target()) && fresh(Footprint() - old(Footprint()))
      ensures var r := E.EncodeScalar(Target(), old(State()), fs, i, info, choices);
        ok == r.Some? && (ok ==> (State(), chosen) == r.value)
    {
      hide Valid, Target, State, E.PutData, E.EncodeGoverning, E.EncodePlain, E.EncodeFixed, E.Copy, E.SourceData;
      hide E.ValueData;
      var f := fs[i];
      chosen := choices;
      var remaining := Remaining();
      if preserve && remaining < Width(f) {
        CopyAndStop(remaining);
        return true, choices;
      }
      if E.IsFixed(f) {
        ok := EncodeFixed(f, info);
        return;
      }
      var original := SourceData(f);
      var c := FindChoice(choices, WhenKey(f));
      if IsExtended(f) && (c.None? || !choices[c.value].extended) {
        Copy(Width(f));
        return true, choices;
      }
      var value := E.ValueData(f, info, original);
      if value.None? {
        return false, choices;
      }
      var (data, exact) := value.value;
      if IsExtended(f) {
        ok := PutData(f, data);
      } else if c.Some? {
        ok, chosen := EncodeGoverning(fs, i, info, choices, c.value, original, data, exact);
      } else {
        ok := EncodePlain(fs, i, choices, data);
      }
    }

    /** The source has ended in the middle of a field: what there is of it is kept. */
    method CopyAndStop(length: nat)
      requires Valid()
      modifies Footprint()
      ensures Valid() && Target() == old(Target()) && fresh(Footprint() - old(Footprint()))
      ensures State() == E.Copy(Target(), old(State()), length).(stopped := true)
    {
      hide E.Copy, ToBits, Pow2;
      Copy(length);
      stopped := true;
    }

    // Runs of bits

    method EncodeBits(f: Field, info: Info) returns (ok: bool)
      requires Valid() && f.Bits?
      modifies Footprint()
      ensures Valid() && Target() == old(Target()) && fresh(Footprint() - old(Footprint()))
      ensures var r := E.EncodeBits(Target(), old(State()), f, info);
        ok == r.Some? && (ok ==> State() == r.value)
    {
      hide Valid, Target, State, E.PutBits, E.SourceBits, E.SourceData, E.ValueData;
      if f.range.None? {
        var raw := 0;
        if preserve {
          raw := SourceBits(f.width);
        }
        ok := PutBits(raw, f.width);
        return;
      }
      var original := SourceData(f);
      var value := E.ValueData(f, info, original);
      if value.None? {
        return false;
      }
      ok := PutBits(value.value.0.number, f.width);
    }

    method EncodePad(f: Field) returns (ok: bool)
      requires Valid() && f.Pad?
      modifies Footprint()
      ensures Valid() && Target() == old(Target()) && fresh(Footprint() - old(Footprint()))
      ensures var r := E.EncodePad(Target(), old(State()), f);
        ok == r.Some? && (ok ==> State() == r.value)
    {
      hide Valid, Target, State, E.PutBits, E.SourceBits;
      var taken := if f.unit == 0 then 0 else bitsTaken % f.unit;
      if taken != 0 {
        var raw := 0;
        if preserve {
          raw := SourceBits(f.unit - taken);
        }
        ok := PutBits(raw, f.unit - taken);
        if !ok {
          return;
        }
      }
      CloseRun();
      ok := true;
    }

    method CloseRun()
      requires Valid()
      modifies this`bitsTaken
      ensures Valid() && Target() == old(Target()) && Footprint() == old(Footprint())
      ensures State() == old(State()).(taken := 0)
    {
      bitsTaken := 0;
    }

    // Arrays

    method EncodeHeader(f: Field, info: Info, counter: nat) returns (ok: bool, count: nat, stride: nat)
      requires Valid() && f.Array?
      modifies Footprint()
      ensures Valid() && Target() == old(Target()) && fresh(Footprint() - old(Footprint()))
      ensures var r := E.EncodeHeader(Target(), old(State()), f, info, counter);
        ok == r.Some? && (ok ==> E.Header(State(), count, stride) == r.value)
    {
      hide Valid, Target, State, E.PutRaw, E.PeekRaw, E.FieldsSize;
      ok, count, stride := true, counter, f.stride;
      if f.countLength != 0 {
        if f.countMember.Some? {
          count := Load(info, f.countMember.value);
        } else {
          var original := PeekRaw(f.countLength);
          if original.Some? && original.value > counter {
            count := original.value;
          }
        }
        ok := PutRaw(f.countLength, count);
        if !ok {
          return;
        }
      }
      if f.strideLength != 0 {
        stride := FieldsSize(f.fields);
        if f.strideMember.Some? {
          stride := Load(info, f.strideMember.value);
        } else {
          var original := PeekRaw(f.strideLength);
          if original.Some? {
            stride := original.value;
          }
        }
        ok := PutRaw(f.strideLength, stride);
      }
    }

    method EncodeArray(f: Field, info: Info) returns (ok: bool)
      requires Valid() && f.Array?
      modifies Footprint()
      ensures Valid() && Target() == old(Target()) && fresh(Footprint() - old(Footprint()))
      ensures var r := E.EncodeArray(Target(), old(State()), f, info);
        ok == r.Some? && (ok ==> State() == r.value)
      decreases f, 2
    {
      hide Valid, Target, State, E.EncodeHeader, E.Copy, E.EncodeElements, IsSkipped;
      var counter := Load(info, f.counter);
      var remaining := Remaining();
      if preserve && remaining < f.countLength + f.strideLength {
        CopyAndStop(remaining);
        return true;
      }
      var count, stride;
      ok, count, stride := EncodeHeader(f, info, counter);
      if !ok {
        return;
      }
      if IsSkipped(f, stride) {
        remaining := Remaining();
        Copy(if stride != 0 && count > remaining / stride then remaining else count * stride);
        return true;
      }
      ok := EncodeElements(f, stride, RecordsAt(info, f.member.id), counter);
    }

    method EncodeElements(f: Field, stride: nat, elements: seq<Info>, counter: nat) returns (ok: bool)
      requires Valid() && f.Array?
      modifies Footprint()
      ensures Valid() && Target() == old(Target()) && fresh(Footprint() - old(Footprint()))
      ensures var r := E.EncodeElements(Target(), old(State()), f, stride, elements, counter, 0);
        ok == r.Some? && (ok ==> State() == r.value)
      decreases f, 1
    {
      hide Valid, Target, State, E.EncodeElement;
      ghost var t, w := Target(), State();
      var i := 0;
      while i < counter && !stopped
        invariant 0 <= i && Valid() && Target() == t && fresh(Footprint() - old(Footprint()))
        invariant E.EncodeElements(t, State(), f, stride, elements, counter, i)
               == E.EncodeElements(t, w, f, stride, elements, counter, 0)
        decreases counter - i
      {
        ok := EncodeElement(f, ElementAt(elements, i), stride);
        if !ok {
          return;
        }
        i := i + 1;
      }
      ok := true;
    }

    method EncodeElement(f: Field, element: Info, stride: nat) returns (ok: bool)
      requires Valid() && f.Array?
      modifies Footprint()
      ensures Valid() && Target() == old(Target()) && fresh(Footprint() - old(Footprint()))
      ensures var r := E.EncodeElement(Target(), old(State()), f, element, stride);
        ok == r.Some? && (ok ==> State() == r.value)
      decreases f, 0
    {
      hide Valid, Target, State, E.EncodeList, E.Copy;
      var start := Tell();
      ok := EncodeList(f.fields, element);
      if !ok || stopped {
        return;
      }
      var end := Tell();
      if end >= start && stride > end - start {
        Copy(stride - (end - start));
      }
    }

    // Lists

    method EncodeVector(f: Field, elements: seq<Info>) returns (ok: bool)
      requires Valid() && f.Vector?
      modifies Footprint()
      ensures Valid() && Target() == old(Target()) && fresh(Footprint() - old(Footprint()))
      ensures var r := E.EncodeVector(Target(), old(State()), f, 0, elements);
        ok == r.Some? && (ok ==> State() == r.value)
      decreases f, 1
    {
      hide Valid, Target, State, E.EncodeList;
      ghost var t, w := Target(), State();
      var i := 0;
      while i < f.count
        invariant 0 <= i <= f.count && Valid() && Target() == t && fresh(Footprint() - old(Footprint()))
        invariant E.EncodeVector(t, State(), f, i, elements) == E.EncodeVector(t, w, f, 0, elements)
      {
        ok := EncodeList(f.fields, ElementAt(elements, i));
        if !ok {
          return;
        }
        i := i + 1;
      }
      ok := true;
    }

    method EncodeOne(fs: seq<Field>, i: nat, info: Info, choices: seq<Choice>)
      returns (ok: bool, chosen: seq<Choice>)
      requires Valid() && i < |fs|
      modifies Footprint()
      ensures Valid() && Target() == old(Target()) && fresh(Footprint() - old(Footprint()))
      ensures var r := E.EncodeOne(Target(), old(State()), fs, i, info, choices);
        ok == r.Some? && (ok ==> (State(), chosen) == r.value)
      decreases fs, 2
    {
      hide Valid, Target, State, E.EncodeList, E.EncodeVector, E.EncodeArray, E.EncodeBits, E.EncodePad, E.Copy;
      hide E.EncodeScalar;
      var f := fs[i];
      chosen := choices;
      if f.Bits? {
        ok := EncodeBits(f, info);
      } else if f.Pad? {
        ok := EncodePad(f);
      } else if f.Array? {
        ok := EncodeArray(f, info);
      } else if f.Vector? {
        ok := EncodeVector(f, RecordsAt(info, f.member.id));
      } else if f.Struct? {
        ok := EncodeList(f.fields, RecordAt(info, f.member.id));
      } else if f.Skip? {
        Copy(f.length);
        ok := true;
      } else {
        ok, chosen := EncodeScalar(fs, i, info, choices);
      }
    }

    /** Writes a list up to where it ends, or up to where the encoder has stopped. */
    method EncodeList(fs: seq<Field>, info: Info) returns (ok: bool)
      requires Valid()
      modifies Footprint()
      ensures Valid() && Target() == old(Target()) && fresh(Footprint() - old(Footprint()))
      ensures var r := E.EncodeList(Target(), old(State()), fs, info);
        ok == r.Some? && (ok ==> State() == r.value)
      decreases fs, 4
    {
      hide Valid, Target, State, E.EncodeOne, Collect, E.Ends;
      ghost var t, w := Target(), State();
      var choices := CollectChoices(fs);
      ghost var whole := E.EncodeFrom(t, w, fs, 0, info, choices);
      var i := 0;
      while i < |fs| && !stopped
        invariant 0 <= i && Valid() && Target() == t && fresh(Footprint() - old(Footprint()))
        invariant E.EncodeFrom(t, State(), fs, i, info, choices) == whole
        decreases |fs| - i
      {
        var f := fs[i];
        if f.Offset? {
          var position := Tell();
          if position != f.offset {
            return false;
          }
        } else if f.Group? {
          StopAt(f, info);
        } else if !f.Preset? && IsDefined(f, version) {
          ok, choices := EncodeOne(fs, i, info, choices);
          if !ok {
            return;
          }
        }
        i := i + 1;
      }
      ok := true;
    }

    /** A group is where a structure is allowed to end. */
    method StopAt(f: Field, info: Info)
      requires Valid() && f.Group?
      modifies this`stopped
      ensures Valid() && Target() == old(Target()) && Footprint() == old(Footprint())
      ensures var w := old(State());
        State() == if E.Ends(Target(), w, f, info) then w.(stopped := true) else w
    {
      hide ToBits, Pow2;
      var remaining := Remaining();
      if E.IsAbsent(f, info) || (if preserve then remaining == 0 else f.since != 0 && f.since > version) {
        stopped := true;
      }
    }

    /** The header is written over once the length is known. */
    method PutHeader(header: seq<Byte>)
      requires Valid() && |header| <= |State().out|
      modifies Footprint()
      ensures Valid() && Target() == old(Target()) && fresh(Footprint() - old(Footprint()))
      ensures State() == old(State()).(out := header + old(State()).out[|header|..])
    {
      hide ToBits, Pow2, Overwritten;
      ghost var contents, out := writer.buffer.Contents(), writer.Written();
      OverwrittenWithin(contents, writer.base, header);
      WrittenOver(contents, writer.base, writer.position, header);
      var ok := writer.PutBytesAt(header, 0);
      assert writer.Written() == header + out[|header|..];
    }

    /** The preserve mode keeps the strings and their numbers; a header of no length comes first. */
    method Begin(header: seq<Byte>)
      requires Valid()
      modifies Footprint()
      ensures Valid() && Target() == old(Target()) && fresh(Footprint() - old(Footprint()))
      ensures State() == E.Put(Target(), old(State()).(strings := if preserve then stored else old(strings)), header)
    {
      hide ToBits, Pow2, E.Put;
      if preserve {
        strings := stored;
      }
      PutBytes(header);
    }

    /** A part ends where its window over the source does, and has a run of bits of its own. */
    method Narrow(length: nat)
      requires Valid()
      modifies this, source`length
      ensures Valid() && Footprint() == old(Footprint()) && unchanged(this`strings)
      ensures var t, w := old(Target()), old(State());
        && Target() == (if E.Remaining(t, w) > length then t.(end := w.pos + length) else t)
        && State() == w.(bits := [], taken := 0, stopped := false)
    {
      hide Pow2;
      if preserve && source.Remaining() > length {
        source.length := source.position + length;
      }
      bitsValue, bitsCount, bitsTaken, stopped := 0, 0, 0, false;
    }

    method Widen(end: nat)
      requires Valid() && source.length <= end <= |Target().body|
      modifies source`length
      ensures Valid() && Footprint() == old(Footprint())
      ensures Target() == old(Target()).(end := end) && State() == old(State())
    {
      hide Pow2, ToBits;
      source.length := end;
    }

    method Resume(value: nat, count: nat, taken: nat, stopped: bool)
      requires Valid() && count < 8 && value < Pow2(count)
      modifies this`bitsValue, this`bitsCount, this`bitsTaken, this`stopped
      ensures Valid() && Footprint() == old(Footprint()) && Target() == old(Target())
      ensures State() == old(State()).(bits := ToBits(value, count), taken := taken, stopped := stopped)
    {
      hide Pow2, ToBits;
      bitsValue, bitsCount, bitsTaken, this.stopped := value, count, taken, stopped;
    }
  }
}
