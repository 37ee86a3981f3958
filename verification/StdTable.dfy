/** What the encoder does with the table of traditional uuencode (src/uuencode.c). */
module StdTable {
  import opened Base64
  import Codec

  lemma DigitOfStd(i: nat)
    requires i < 64
    ensures STD_TABLE[i] as int == if i == 0 then '`' as int else ' ' as int + i
  {
    if i < 32 {
      LowDigit(i);
    } else {
      HighDigit(i);
    }
  }

  lemma LowDigit(i: nat)
    requires i < 32
    ensures STD_TABLE[i] as int == if i == 0 then '`' as int else ' ' as int + i
  {
  }

  lemma HighDigit(i: nat)
    requires 32 <= i < 64
    ensures STD_TABLE[i] as int == ' ' as int + i
  {
  }

  lemma PadIsZeroDigit()
    ensures STD_TABLE[64] == '`' && STD_TABLE[0] == '`'
  {
  }

  /** By value, with zero as '`'; subtracting a blank, modulo 64, gives the value back, for the pad as well. */
  lemma StdTableIs(i: nat)
    requires i < 65
    ensures STD_TABLE[i] as int == if i % 64 == 0 then 96 else 32 + i
    ensures (STD_TABLE[i] as int - 32) % 64 == i % 64
  {
    hide STD_TABLE;
    PadIsZeroDigit();
    if i < 64 {
      DigitOfStd(i);
    }
  }

  /** The bytes with those that fill up the last group. */
  function ZeroFilled(x: seq<byte>): (y: seq<byte>) {
    x + seq(Padding(|x|), _ => 0)
  }

  /** Every character is a digit of the zero-filled bytes: the pad cannot be told from a zero digit. */
  lemma StdChar(x: seq<byte>, i: nat)
    requires i < EncodedLength(|x|)
    ensures EncodedChar(x, STD_TABLE, i) == STD_TABLE[SixBits(Group(x, i / 4), i % 4)]
  {
    hide STD_TABLE;
    if i >= EncodedLength(|x|) - Padding(|x|) {
      PadIsZeroDigit();
      var g, k := i / 4, i % 4;
      assert At(x, 3 * g + 2) == 0;
      if k == 2 {
        assert At(x, 3 * g + 1) == 0;
        assert At(x, 3 * g) * 65536 / 64 % 64 == 0;
      } else {
        assert Group(x, g) % 64 == 0;
      }
    }
  }

  lemma SameDigit(v: sextet, w: sextet)
    requires STD_TABLE[v] == STD_TABLE[w]
    ensures v == w
  {
    hide STD_TABLE;
    DigitOfStd(v);
    DigitOfStd(w);
  }

  lemma SameGroup(x: seq<byte>, y: seq<byte>, g: nat)
    requires forall k :: 0 <= k < 4 ==> SixBits(Group(x, g), k) == SixBits(Group(y, g), k)
    ensures forall k :: 3 * g <= k < 3 * g + 3 ==> At(x, k) == At(y, k)
  {
    Codec.NumberOfDigits(Group(x, g));
    Codec.NumberOfDigits(Group(y, g));
    assert Codec.Digits(Group(x, g)) == Codec.Digits(Group(y, g));
    Codec.BytesOfInts(At(x, 3 * g), At(x, 3 * g + 1), At(x, 3 * g + 2));
    Codec.BytesOfInts(At(y, 3 * g), At(y, 3 * g + 1), At(y, 3 * g + 2));
  }

  lemma FilledLength(x: seq<byte>)
    ensures |ZeroFilled(x)| * 4 == EncodedLength(|x|) * 3
  {
  }

  lemma FilledAt(x: seq<byte>, k: nat)
    ensures At(ZeroFilled(x), k) == At(x, k)
  {
  }

  lemma SameDigitAt(x: seq<byte>, y: seq<byte>, g: nat, j: nat)
    requires Encode(x, STD_TABLE) == Encode(y, STD_TABLE) && j < 4 && 4 * g + j < EncodedLength(|x|)
    ensures SixBits(Group(x, g), j) == SixBits(Group(y, g), j)
  {
    hide STD_TABLE, SixBits, Group, EncodedChar;
    var i := 4 * g + j;
    assert i / 4 == g && i % 4 == j;
    assert Encode(x, STD_TABLE)[i] == Encode(y, STD_TABLE)[i];
    StdChar(x, i);
    StdChar(y, i);
    SameDigit(SixBits(Group(x, g), j), SixBits(Group(y, g), j));
  }

  lemma SameBytes(x: seq<byte>, y: seq<byte>, k: nat)
    requires Encode(x, STD_TABLE) == Encode(y, STD_TABLE) && k < |ZeroFilled(x)|
    ensures At(x, k) == At(y, k)
  {
    hide STD_TABLE, SixBits, Group, Encode, ZeroFilled;
    FilledLength(x);
    var g := k / 3;
    forall j | 0 <= j < 4
      ensures SixBits(Group(x, g), j) == SixBits(Group(y, g), j)
    {
      SameDigitAt(x, y, g, j);
    }
    SameGroup(x, y, g);
  }

  lemma SameChar(x: seq<byte>, y: seq<byte>, i: nat)
    requires ZeroFilled(x) == ZeroFilled(y) && i < EncodedLength(|x|)
    ensures EncodedLength(|x|) == EncodedLength(|y|)
    ensures EncodedChar(x, STD_TABLE, i) == EncodedChar(y, STD_TABLE, i)
  {
    hide STD_TABLE, EncodedChar, ZeroFilled;
    FilledLength(x);
    FilledLength(y);
    var g := i / 4;
    forall k | 3 * g <= k < 3 * g + 3
      ensures At(x, k) == At(y, k)
    {
      FilledAt(x, k);
      FilledAt(y, k);
    }
    StdChar(x, i);
    StdChar(y, i);
  }

  /**
   * With this table the encoder keeps the bytes only up to the zeros that fill the last group, so unlike base64 it
   * does not keep the length: two sources have the same text if and only if they are equal when zero-filled.
   */
  lemma StdEncodesZeroFilled(x: seq<byte>, y: seq<byte>)
    ensures Encode(x, STD_TABLE) == Encode(y, STD_TABLE) <==> ZeroFilled(x) == ZeroFilled(y)
  {
    hide STD_TABLE, EncodedChar, ZeroFilled;
    var e, f, u, v := Encode(x, STD_TABLE), Encode(y, STD_TABLE), ZeroFilled(x), ZeroFilled(y);
    FilledLength(x);
    FilledLength(y);
    if e == f {
      forall k | 0 <= k < |u|
        ensures u[k] == v[k]
      {
        SameBytes(x, y, k);
        FilledAt(x, k);
        FilledAt(y, k);
      }
      assert u == v;
    }
    if u == v {
      forall i | 0 <= i < |e|
        ensures e[i] == f[i]
      {
        SameChar(x, y, i);
      }
      assert e == f;
    }
  }
}
