/**
 The loops which load and store numbers: little-endian ones, and binary-coded
 decimals (libopendmi/src/field-internal.h, libopendmi/src/utils/codec.c,
 libopendmi/src/field-encode.c).
 */
module Words {
  import opened Bytes
  import opened BitRuns
  import opened Schema

  lemma {:induction false} LoadAppended(data: seq<Byte>, last: Byte)
    ensures LeLoad(data + [last]) == LeLoad(data) + last * Pow256(|data|)
  {
    if data == [] {
      assert LeLoad([last]) == last + 256 * LeLoad([]);
    } else {
      LoadAppended(data[1..], last);
      assert (data + [last])[1..] == data[1..] + [last];
      assert 256 * (last * Pow256(|data| - 1)) == last * Pow256(|data|);
    }
  }

  method LoadNumber(data: seq<Byte>) returns (number: nat)
    ensures number == LeLoad(data) < Pow256(|data|)
  {
    number := 0;
    for i := 0 to |data|
      invariant number == LeLoad(data[..i])
    {
      LoadAppended(data[..i], data[i]);
      assert data[..i + 1] == data[..i] + [data[i]];
      number := number + data[i] * Pow256(i);
    }
    assert data[..|data|] == data;
    LoadIsBounded(data);
  }

  method StoreNumber(number: nat, length: nat) returns (data: seq<Byte>)
    ensures data == LeStore(number, length)
  {
    data := [];
    var rest := number;
    for i := 0 to length
      invariant |data| == i && data + LeStore(rest, length - i) == LeStore(number, length)
    {
      assert data + LeStore(rest, length - i) == (data + [rest % 256]) + LeStore(rest / 256, length - i - 1);
      data := data + [rest % 256];
      rest := rest / 256;
    }
    assert data + [] == data;
  }

  lemma {:induction false} DigitsAppended(data: seq<Byte>, last: Byte)
    ensures BcdValue(data + [last]) == BcdValue(data) + (last % 16 + 10 * (last / 16)) * Pow100(|data|)
  {
    if data == [] {
      assert BcdValue([last]) == last % 16 + 10 * (last / 16) + 100 * BcdValue([]);
    } else {
      DigitsAppended(data[1..], last);
      assert (data + [last])[1..] == data[1..] + [last];
      var digits := last % 16 + 10 * (last / 16);
      assert 100 * (digits * Pow100(|data| - 1)) == digits * Pow100(|data|);
    }
  }

  lemma DigitsOneMore(data: seq<Byte>, i: nat, low: nat, high: nat, factor: nat)
    requires i < |data| && low == data[i] % 16 && high == data[i] / 16 && factor == Pow100(i)
    ensures BcdValue(data[..i + 1]) == BcdValue(data[..i]) + low * factor + high * factor * 10
  {
    hide BcdValue, Pow100;
    DigitsAppended(data[..i], data[i]);
    assert data[..i + 1] == data[..i] + [data[i]];
    Distribute(low, high, factor);
  }

  lemma Distribute(low: nat, high: nat, factor: nat)
    ensures (low + 10 * high) * factor == low * factor + high * factor * 10
  {
  }

  /** Digits are summed up with a factor growing by a hundred a byte. */
  method LoadDigits(data: seq<Byte>) returns (number: nat)
    ensures number == BcdValue(data)
  {
    hide BcdValue;
    number := 0;
    var factor: nat := 1;
    NoDigits();
    for i := 0 to |data|
      invariant number == BcdValue(data[..i]) && factor == Pow100(i)
    {
      var low: nat, high: nat := data[i] % 16, data[i] / 16;
      DigitsOneMore(data, i, low, high, factor);
      number := number + low * factor;
      number := number + high * factor * 10;
      factor := factor * 100;
    }
    assert data[..|data|] == data;
  }

  lemma NoDigits()
    ensures BcdValue([]) == 0
  {
  }

  function Pow16(n: nat): nat {
    if n == 0 then 1 else 16 * Pow16(n - 1)
  }

  /** Number which has the decimal digits of another one for its hexadecimal ones. */
  function Nibbles(number: nat, count: nat): nat {
    if count == 0 then 0 else number % 10 + 16 * Nibbles(number / 10, count - 1)
  }

  lemma {:induction false} NibblesSpell(number: nat, length: nat)
    ensures LeStore(Nibbles(number, 2 * length), length) == BcdSpell(number, length)
  {
    if length != 0 {
      NibblesSpell(number / 100, length - 1);
      TwoNibbles(number, 2 * length - 2);
      var rest := Nibbles(number / 100, 2 * length - 2);
      ByteOfNibbles(number % 10, number / 10 % 10, rest);
    }
  }

  lemma TwoNibbles(number: nat, count: nat)
    ensures Nibbles(number, count + 2)
         == number % 10 + 16 * (number / 10 % 10) + 256 * Nibbles(number / 100, count)
  {
    assert number / 10 / 10 == number / 100;
    assert Nibbles(number / 10, count + 1) == number / 10 % 10 + 16 * Nibbles(number / 10 / 10, count);
    assert Nibbles(number, count + 2) == number % 10 + 16 * Nibbles(number / 10, count + 1);
  }

  lemma ByteOfNibbles(low: nat, high: nat, rest: nat)
    requires low < 10 && high < 10
    ensures var n := low + 16 * high + 256 * rest; n % 256 == low + 16 * high && n / 256 == rest
  {
  }

  /** A number with its last decimal digits dropped. */
  function Dropped(number: nat, count: nat): nat {
    if count == 0 then number else Dropped(number / 10, count - 1)
  }

  lemma {:induction false} DroppedOnce(number: nat, count: nat)
    ensures Dropped(number, count + 1) == Dropped(number, count) / 10
  {
    if count != 0 {
      DroppedOnce(number / 10, count - 1);
    }
  }

  lemma {:induction false} DroppedInPairs(number: nat, length: nat)
    ensures Dropped(number, 2 * length) == number / Pow100(length)
  {
    if length != 0 {
      DroppedInPairs(number / 100, length - 1);
      assert number / 10 / 10 == number / 100;
      assert Dropped(number, 2 * length) == Dropped(number / 10, 2 * length - 1);
      QuotientSteps(number, Pow100(length - 1));
    }
  }

  lemma QuotientSteps(number: nat, p: nat)
    requires p > 0
    ensures number / (100 * p) == number / 100 / p
  {
    var q, r := number / 100 / p, number / 100 % p;
    assert number / 100 == q * p + r;
    assert number == q * (100 * p) + (100 * r + number % 100) by {
      assert 100 * (q * p) == q * (100 * p);
    }
    DivisionIsUnique(number, 100 * p, q, 100 * r + number % 100);
  }

  lemma NibbleStep(digits: nat, left: nat, shift: nat, count: nat)
    requires count > 0
    ensures digits + Pow16(shift) * Nibbles(left, count)
         == digits + left % 10 * Pow16(shift) + Pow16(shift + 1) * Nibbles(left / 10, count - 1)
  {
    var p, rest := Pow16(shift), Nibbles(left / 10, count - 1);
    assert p * (left % 10 + 16 * rest) == left % 10 * p + 16 * p * rest;
  }

  /** Digits of a number, one hexadecimal digit at a time, and what there is no room for. */
  method SpellDigits(number: nat, length: nat) returns (digits: nat, left: nat)
    ensures LeStore(digits, length) == BcdSpell(number, length)
    ensures left == number / Pow100(length)
  {
    digits, left := 0, number;
    for shift := 0 to 2 * length
      invariant digits + Pow16(shift) * Nibbles(left, 2 * length - shift) == Nibbles(number, 2 * length)
      invariant left == Dropped(number, shift)
    {
      NibbleStep(digits, left, shift, 2 * length - shift);
      DroppedOnce(number, shift);
      digits := digits + left % 10 * Pow16(shift);
      left := left / 10;
    }
    NibblesSpell(number, length);
    DroppedInPairs(number, length);
  }
}
