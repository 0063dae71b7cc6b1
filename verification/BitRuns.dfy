/**
 Runs of bits. A unit shared by several ranges of bits is read and written
 through an accumulator; here the accumulator is the sequence of the bits it
 holds, the least significant one first, and the number the engine keeps is
 what the sequence spells.
 */
module BitRuns {
  import opened Bytes

  function Pow2(n: nat): (p: nat)
    ensures p > 0
  {
    if n == 0 then 1 else 2 * Pow2(n - 1)
  }

  /** The low bits of a number, the least significant one first. */
  function ToBits(number: nat, count: nat): (bits: seq<bool>)
    ensures |bits| == count
  {
    if count == 0 then [] else [number % 2 == 1] + ToBits(number / 2, count - 1)
  }

  /** Number the bits spell. */
  function FromBits(bits: seq<bool>): (number: nat) {
    if bits == [] then 0 else (if bits[0] then 1 else 0) + 2 * FromBits(bits[1..])
  }

  /** A number shifted right. */
  function Shr(number: nat, count: nat): nat {
    if count == 0 then number else Shr(number / 2, count - 1)
  }

  /** A number masked to its low bits. */
  function Low(number: nat, count: nat): nat {
    if count == 0 then 0 else number % 2 + 2 * Low(number / 2, count - 1)
  }

  /** Shifting and masking divide by a power of two. */
  lemma {:induction false} ShiftDivides(number: nat, count: nat)
    ensures number == Shr(number, count) * Pow2(count) + Low(number, count)
    ensures Low(number, count) < Pow2(count)
  {
    if count != 0 {
      ShiftDivides(number / 2, count - 1);
      var q, p := Shr(number, count), Pow2(count - 1);
      assert q * (2 * p) == 2 * (q * p);
    }
  }

  function ByteBits(data: Byte): (bits: seq<bool>)
    ensures |bits| == 8
  {
    ToBits(data, 8)
  }

  /** Bits of the bytes in the order a little-endian value holds them. */
  function BytesBits(data: seq<Byte>): (bits: seq<bool>)
    ensures |bits| == 8 * |data|
  {
    if data == [] then [] else ByteBits(data[0]) + BytesBits(data[1..])
  }

  lemma {:induction false} BitsAreBounded(bits: seq<bool>)
    ensures FromBits(bits) < Pow2(|bits|)
  {
    if bits != [] {
      BitsAreBounded(bits[1..]);
    }
  }

  lemma {:induction false} ToFromBits(bits: seq<bool>)
    ensures ToBits(FromBits(bits), |bits|) == bits
  {
    if bits != [] {
      ToFromBits(bits[1..]);
      assert FromBits(bits) / 2 == FromBits(bits[1..]);
      assert bits == [bits[0]] + bits[1..];
    }
  }

  lemma {:induction false} FromToBits(number: nat, count: nat)
    ensures FromBits(ToBits(number, count)) == Low(number, count)
  {
    if count != 0 {
      FromToBits(number / 2, count - 1);
      assert ToBits(number, count)[1..] == ToBits(number / 2, count - 1);
    }
  }

  /** A byte shifted above the accumulator is the accumulator with its bits behind. */
  lemma {:induction false} FromConcat(a: seq<bool>, b: seq<bool>)
    ensures FromBits(a + b) == FromBits(a) + Pow2(|a|) * FromBits(b)
  {
    if a == [] {
      assert a + b == b;
    } else {
      FromConcat(a[1..], b);
      assert (a + b)[1..] == a[1..] + b;
      assert Pow2(|a|) * FromBits(b) == 2 * (Pow2(|a| - 1) * FromBits(b));
    }
  }

  /** Masking takes the low bits, and shifting drops them. */
  lemma {:induction false} FromParts(low: seq<bool>, high: seq<bool>)
    ensures FromBits(low) == Low(FromBits(low + high), |low|)
    ensures FromBits(high) == Shr(FromBits(low + high), |low|)
  {
    if low == [] {
      assert low + high == high;
    } else {
      FromParts(low[1..], high);
      assert (low + high)[1..] == low[1..] + high;
      assert FromBits(low + high) / 2 == FromBits(low[1..] + high);
    }
  }

  lemma {:induction false} BytesBitsConcat(a: seq<Byte>, b: seq<Byte>)
    ensures BytesBits(a + b) == BytesBits(a) + BytesBits(b)
  {
    if a == [] {
      assert a + b == b;
    } else {
      BytesBitsConcat(a[1..], b);
      assert (a + b)[1..] == a[1..] + b && (a + b)[0] == a[0];
      Associative(ByteBits(a[0]), BytesBits(a[1..]), BytesBits(b));
    }
  }

  /** The bits of the bytes spell the little-endian number the bytes spell. */
  lemma {:induction false} BytesBitsSpell(data: seq<Byte>)
    ensures FromBits(BytesBits(data)) == LeLoad(data)
  {
    if data != [] {
      BytesBitsSpell(data[1..]);
      var first, rest := ByteBits(data[0]), BytesBits(data[1..]);
      FromConcat(first, rest);
      ByteRoundTrip(data[0]);
      Pow2OfEight();
      assert FromBits(first + rest) == data[0] + 256 * LeLoad(data[1..]);
    }
  }

  lemma Pow2OfEight()
    ensures Pow2(8) == 256
  {
    assert Pow2(4) == 16;
  }

  lemma ByteRoundTrip(data: Byte)
    ensures FromBits(ByteBits(data)) == data
  {
    FromToBits(data, 8);
    ShiftDivides(data, 8);
    Pow2OfEight();
  }

  lemma EightBitsAreAByte(bits: seq<bool>)
    requires |bits| == 8
    ensures FromBits(bits) < 256
  {
    BitsAreBounded(bits);
    Pow2OfEight();
  }

  lemma Associative<T>(a: seq<T>, b: seq<T>, c: seq<T>)
    ensures (a + b) + c == a + (b + c)
  {
  }

  /** Shifting and masking a number picks a range of its bits. */
  lemma PickedBits(whole: seq<bool>, a: seq<bool>, b: seq<bool>, c: seq<bool>)
    requires (a + b) + c == whole
    ensures Low(Shr(FromBits(whole), |a|), |b|) == FromBits(b)
  {
    Associative(a, b, c);
    var rest := b + c;
    FromParts(a, rest);
    FromParts(b, c);
  }

  lemma PickedFromBytes(data: seq<Byte>, a: seq<bool>, b: seq<bool>, c: seq<bool>)
    requires (a + b) + c == BytesBits(data)
    ensures Low(Shr(LeLoad(data), |a|), |b|) == FromBits(b)
  {
    PickedBits(BytesBits(data), a, b, c);
    BytesBitsSpell(data);
  }

  /** A number of so many bits is what its bits spell. */
  lemma WholeNumber(value: nat, count: nat)
    requires value < Pow2(count)
    ensures FromBits(ToBits(value, count)) == value && Shr(value, count) == 0
  {
    FromToBits(value, count);
    ShiftDivides(value, count);
    DivisionIsUnique(value, Pow2(count), Shr(value, count), Low(value, count));
    DivisionIsUnique(value, Pow2(count), 0, value);
  }
}
