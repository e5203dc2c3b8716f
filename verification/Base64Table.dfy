/** The encoder against Table 1 of RFC 4648, bit by bit. */
module Base64Table {
  import opened Base64

  const UPPER := "ABCDEFGHIJKLMNOPQRSTUVWXYZ"
  const LOWER := "abcdefghijklmnopqrstuvwxyz"
  const REST := "0123456789+/"
  const TABLE := UPPER + LOWER + REST

  // Bit `k` of the data, counted from the highest bit of the first byte; zero beyond the end.
  function Bit(data: seq<Byte>, k: nat): (bit: nat)
    ensures bit <= 1
  {
    if k / 8 < |data| then data[k / 8] / [128, 64, 32, 16, 8, 4, 2, 1][k % 8] % 2 else 0
  }

  // The number the six bits from bit `k` on make.
  function SixBits(data: seq<Byte>, k: nat): (v: nat)
    ensures v < 64
  {
    Bit(data, k) * 32 + Bit(data, k + 1) * 16 + Bit(data, k + 2) * 8 + Bit(data, k + 3) * 4 + Bit(data, k + 4) * 2 +
    Bit(data, k + 5)
  }

  lemma TableUpper(d: nat)
    requires d < 26
    ensures |UPPER| == 26 && UPPER[d] as int == d + 65
  {
  }

  lemma TableLower(d: nat)
    requires d < 26
    ensures |LOWER| == 26 && LOWER[d] as int == d + 97
  {
  }

  lemma TableRest(d: nat)
    requires d < 12
    ensures |REST| == 12 && REST[d] == if d < 10 then (d + 48) as char else if d == 10 then '+' else '/'
  {
  }

  lemma TableSize()
    ensures |UPPER| == |LOWER| == 26 && |REST| == 12 && |TABLE| == 64
  {
  }

  lemma TableIs(d: Sextet)
    ensures |TABLE| == 64 && TABLE[d] == CharOf(d)
  {
    TableSize();
    if d < 26 {
      TableUpper(d);
    } else if d < 52 {
      TableLower(d - 26);
    } else {
      TableRest(d - 52);
    }
    hide UPPER, LOWER, REST;
  }

  // A byte is the number its bits make.
  lemma ByteBits(x: Byte)
    ensures x == (x / 128 % 2) * 128 + (x / 64 % 2) * 64 + (x / 32 % 2) * 32 + (x / 16 % 2) * 16 + (x / 8 % 2) * 8 +
      (x / 4 % 2) * 4 + (x / 2 % 2) * 2 + x % 2
  {
    assert x / 2 / 2 == x / 4 && x / 4 / 2 == x / 8 && x / 8 / 2 == x / 16 && x / 16 / 2 == x / 32;
    assert x / 32 / 2 == x / 64 && x / 64 / 2 == x / 128;
  }

  lemma BitOf(data: seq<Byte>, i: nat, j: nat)
    requires j < 8
    ensures Bit(data, 8 * i + j) ==
      if i < |data| then data[i] / [128, 64, 32, 16, 8, 4, 2, 1][j] % 2 else 0
  {
    assert (8 * i + j) / 8 == i && (8 * i + j) % 8 == j;
  }

  lemma ByteBitsAt(data: seq<Byte>, i: nat)
    ensures var x: Byte := if i < |data| then data[i] else 0;
      Bit(data, 8 * i) == x / 128 % 2 && Bit(data, 8 * i + 1) == x / 64 % 2 && Bit(data, 8 * i + 2) == x / 32 % 2 &&
      Bit(data, 8 * i + 3) == x / 16 % 2 && Bit(data, 8 * i + 4) == x / 8 % 2 && Bit(data, 8 * i + 5) == x / 4 % 2 &&
      Bit(data, 8 * i + 6) == x / 2 % 2 && Bit(data, 8 * i + 7) == x % 2
  {
    BitOf(data, i, 0);
    BitOf(data, i, 1);
    BitOf(data, i, 2);
    BitOf(data, i, 3);
    BitOf(data, i, 4);
    BitOf(data, i, 5);
    BitOf(data, i, 6);
    BitOf(data, i, 7);
    hide Bit;
  }

  lemma HighBits(x: Byte)
    ensures x / 4 == (x / 128 % 2) * 32 + (x / 64 % 2) * 16 + (x / 32 % 2) * 8 + (x / 16 % 2) * 4 + (x / 8 % 2) * 2 +
      x / 4 % 2
    ensures x % 4 == (x / 2 % 2) * 2 + x % 2
    ensures x / 16 == (x / 128 % 2) * 8 + (x / 64 % 2) * 4 + (x / 32 % 2) * 2 + x / 16 % 2
    ensures x % 16 == (x / 8 % 2) * 8 + (x / 4 % 2) * 4 + (x / 2 % 2) * 2 + x % 2
    ensures x / 64 == (x / 128 % 2) * 2 + x / 64 % 2
    ensures x % 64 ==
      (x / 32 % 2) * 32 + (x / 16 % 2) * 16 + (x / 8 % 2) * 8 + (x / 4 % 2) * 4 + (x / 2 % 2) * 2 + x % 2
  {
    ByteBits(x);
  }

  // The byte at `i`, zero beyond the end.
  function ByteAt(data: seq<Byte>, i: nat): (byte: Byte)
  {
    if i < |data| then data[i] else 0
  }

  // The four digits of the first three bytes, missing ones counting as zero.
  lemma FirstDigit(data: seq<Byte>)
    ensures SixBits(data, 0) == Digit0(ByteAt(data, 0))
  {
    ByteBitsAt(data, 0);
    HighBits(ByteAt(data, 0));
    hide Bit;
  }

  lemma SecondDigit(data: seq<Byte>)
    ensures SixBits(data, 6) == Digit1(ByteAt(data, 0), ByteAt(data, 1))
  {
    ByteBitsAt(data, 0);
    ByteBitsAt(data, 1);
    HighBits(ByteAt(data, 0));
    HighBits(ByteAt(data, 1));
    hide Bit;
  }

  lemma ThirdDigit(data: seq<Byte>)
    ensures SixBits(data, 12) == Digit2(ByteAt(data, 1), ByteAt(data, 2))
  {
    ByteBitsAt(data, 1);
    ByteBitsAt(data, 2);
    HighBits(ByteAt(data, 1));
    HighBits(ByteAt(data, 2));
    hide Bit;
  }

  lemma FourthDigit(data: seq<Byte>)
    ensures SixBits(data, 18) == Digit3(ByteAt(data, 2))
  {
    ByteBitsAt(data, 2);
    HighBits(ByteAt(data, 2));
    hide Bit;
  }

  lemma SixBitsShift(data: seq<Byte>, k: nat)
    requires |data| >= 3
    ensures SixBits(data, k + 24) == SixBits(data[3..], k)
  {
    BitShift(data, k);
    BitShift(data, k + 1);
    BitShift(data, k + 2);
    BitShift(data, k + 3);
    BitShift(data, k + 4);
    BitShift(data, k + 5);
    hide Bit;
  }

  lemma BitShift(data: seq<Byte>, k: nat)
    requires |data| >= 3
    ensures Bit(data, k + 24) == Bit(data[3..], k)
  {
    assert (k + 24) / 8 == k / 8 + 3 && (k + 24) % 8 == k % 8;
  }

  lemma ShortEncode(x: Byte, y: Byte)
    ensures Encode([x]) == [CharOf(Digit0(x)), CharOf(Digit1(x, 0)), '=', '=']
    ensures Encode([x, y]) == [CharOf(Digit0(x)), CharOf(Digit1(x, y)), CharOf(Digit2(y, 0)), '=']
  {
    hide CharOf, Digit0, Digit1, Digit2, Digit3;
  }

  lemma FirstFour(data: seq<Byte>, i: nat)
    requires i < 4 && i < |Encode(data)| - Padding(|data|)
    ensures Encode(data)[i] == CharOf(
      if i == 0 then Digit0(ByteAt(data, 0)) else if i == 1 then Digit1(ByteAt(data, 0), ByteAt(data, 1))
      else if i == 2 then Digit2(ByteAt(data, 1), ByteAt(data, 2)) else Digit3(ByteAt(data, 2)))
  {
    hide Encode, CharOf, Digit0, Digit1, Digit2, Digit3;
    EncodeShape(data);
    assert |data| > 0;
    ShortEncode(ByteAt(data, 0), ByteAt(data, 1));
    if |data| == 1 {
      assert data == [data[0]];
    } else if |data| == 2 {
      assert data == [data[0], data[1]];
    } else {
      assert data == [data[0], data[1], data[2]] + data[3..];
      EncodeStep(data[0], data[1], data[2], data[3..]);
    }
  }

  lemma LaterFour(data: seq<Byte>, i: nat)
    requires 4 <= i < |Encode(data)| - Padding(|data|)
    ensures |data| >= 3 && i - 4 < |Encode(data[3..])| - Padding(|data[3..]|)
    ensures Encode(data)[i] == Encode(data[3..])[i - 4]
  {
    hide Encode, CharOf, Digit0, Digit1, Digit2, Digit3;
    EncodeShape(data);
    assert |data| >= 3;
    var rest := data[3..];
    assert data == [data[0], data[1], data[2]] + rest;
    EncodeStep(data[0], data[1], data[2], rest);
  }

  // Every character before the padding is the entry of Table 1 for six bits of the data, in order.
  lemma {:induction false} EncodeIsTable(data: seq<Byte>, i: nat)
    requires i < |Encode(data)| - Padding(|data|)
    ensures |TABLE| == 64 && Encode(data)[i] == TABLE[SixBits(data, 6 * i)]
    decreases |data|
  {
    hide *;
    TableIs(SixBits(data, 6 * i));
    if i >= 4 {
      LaterFour(data, i);
      EncodeIsTable(data[3..], i - 4);
      SixBitsShift(data, 6 * (i - 4));
    } else {
      FirstFour(data, i);
      FirstDigit(data);
      SecondDigit(data);
      ThirdDigit(data);
      FourthDigit(data);
    }
  }

  // The characters of the table are those that carry bits, each the bits of its place in it.
  lemma AlphabetIs(c: char)
    ensures InAlphabet(c) <==> c in TABLE
    ensures |TABLE| == 64 && (InAlphabet(c) ==> TABLE[DigitOf(c)] == c)
  {
    TableSize();
    if InAlphabet(c) {
      TableIs(DigitOf(c));
      CharOfDigitOf(c);
    }
    if c in TABLE {
      var d :| 0 <= d < |TABLE| && TABLE[d] == c;
      TableIs(d);
    }
    hide UPPER, LOWER, REST;
  }
}
