/** Base64 as in section 4 of RFC 4648, read with the tolerance of section 6.8 of RFC 2045,
    and the size prediction of src/common.cpp. */
module Base64 {
  import opened Text
  import opened Int32

  type Byte = x: int | 0 <= x < 256
  type Sextet = x: int | 0 <= x < 64

  predicate InAlphabet(c: char)
  {
    'A' <= c <= 'Z' || 'a' <= c <= 'z' || '0' <= c <= '9' || c == '+' || c == '/'
  }

  // Table 1 of RFC 4648.
  function CharOf(d: Sextet): (c: char)
    ensures InAlphabet(c)
    ensures DigitOf(c) == d
  {
    if d < 26 then (d + 65) as char
    else if d < 52 then (d + 71) as char
    else if d < 62 then (d - 4) as char
    else if d == 62 then '+'
    else '/'
  }

  function DigitOf(c: char): (d: Sextet)
    requires InAlphabet(c)
  {
    if 'A' <= c <= 'Z' then c as int - 65
    else if 'a' <= c <= 'z' then c as int - 71
    else if '0' <= c <= '9' then c as int + 4
    else if c == '+' then 62
    else 63
  }

  lemma CharOfDigitOf(c: char)
    requires InAlphabet(c)
    ensures CharOf(DigitOf(c)) == c
  {
  }

  function Encode(data: seq<Byte>): (text: string)
  {
    if |data| == 0 then ""
    else if |data| == 1 then [CharOf(Digit0(data[0])), CharOf(Digit1(data[0], 0)), '=', '=']
    else if |data| == 2 then
      [CharOf(Digit0(data[0])), CharOf(Digit1(data[0], data[1])), CharOf(Digit2(data[1], 0)), '=']
    else
      [CharOf(Digit0(data[0])), CharOf(Digit1(data[0], data[1])), CharOf(Digit2(data[1], data[2])),
       CharOf(Digit3(data[2]))] + Encode(data[3..])
  }

  // The four six-bit digits of three bytes.
  function Digit0(x: Byte): (sextet: Sextet) { x / 4 }
  function Digit1(x: Byte, y: Byte): (sextet: Sextet) { x % 4 * 16 + y / 16 }
  function Digit2(y: Byte, z: Byte): (sextet: Sextet) { y % 16 * 4 + z / 64 }
  function Digit3(z: Byte): (sextet: Sextet) { z % 64 }

  // The decoder of the program: a bit buffer `acc` of `bits` bits, every character outside the
  // alphabet skipped, a byte given out as soon as eight bits are there, leftover bits dropped.
  function DecodeFrom(text: string, acc: nat, bits: nat): (data: seq<Byte>)
    requires bits in {0, 2, 4, 6} && acc < Width(bits)
  {
    if text == "" then []
    else if !InAlphabet(text[0]) then DecodeFrom(text[1..], acc, bits)
    else
      var v := acc * 64 + DigitOf(text[0]);
      if bits == 0 then DecodeFrom(text[1..], v, 6)
      else [v / Width(bits - 2)] + DecodeFrom(text[1..], v % Width(bits - 2), bits - 2)
  }

  function Width(bits: nat): (w: nat)
    requires bits in {0, 2, 4, 6}
  {
    if bits == 0 then 1 else if bits == 2 then 4 else if bits == 4 then 16 else 64
  }

  function Decode(text: string): (data: seq<Byte>) { DecodeFrom(text, 0, 0) }

  // ----- The standard's reading: whole groups of four, padding only at the very end. -----

  function DecodeStrict(text: string): (data: Option<seq<Byte>>)
  {
    if text == "" then Some([])
    else if |text| < 4 || !InAlphabet(text[0]) || !InAlphabet(text[1]) then None
    else
      var a, b := DigitOf(text[0]), DigitOf(text[1]);
      if text[2..] == "==" then
        if b % 16 == 0 then Some([First(a, b)]) else None
      else if !InAlphabet(text[2]) then None
      else
        var c := DigitOf(text[2]);
        if text[3..] == "=" then
          if c % 4 == 0 then Some([First(a, b), Second(b, c)]) else None
        else if !InAlphabet(text[3]) then None
        else
          var rest :- DecodeStrict(text[4..]);
          Some([First(a, b), Second(b, c), Third(c, DigitOf(text[3]))] + rest)
  }

  function First(a: Sextet, b: Sextet): (byte: Byte) { a * 4 + b / 16 }
  function Second(b: Sextet, c: Sextet): (byte: Byte) { b % 16 * 16 + c / 4 }
  function Third(c: Sextet, d: Sextet): (byte: Byte) { c % 4 * 64 + d }

  lemma Regroup(x: Byte, y: Byte, z: Byte)
    ensures First(Digit0(x), Digit1(x, y)) == x
    ensures Second(Digit1(x, y), Digit2(y, z)) == y
    ensures Third(Digit2(y, z), Digit3(z)) == z
    ensures Digit1(x, 0) % 16 == 0 && Digit2(y, 0) % 4 == 0
  {
    assert Digit1(x, y) / 16 == x % 4 && Digit1(x, y) % 16 == y / 16;
    assert Digit2(y, z) / 4 == y % 16 && Digit2(y, z) % 4 == z / 64;
  }

  lemma Ungroup(a: Sextet, b: Sextet, c: Sextet, d: Sextet)
    ensures var x, y, z := First(a, b), Second(b, c), Third(c, d);
      Digit0(x) == a && Digit1(x, y) == b && Digit2(y, z) == c && Digit3(z) == d
    ensures b % 16 == 0 ==> Digit1(First(a, b), 0) == b
    ensures c % 4 == 0 ==> Digit2(Second(b, c), 0) == c
  {
    var x, y, z := First(a, b), Second(b, c), Third(c, d);
    assert x / 4 == a && x % 4 == b / 16;
    assert y / 16 == b % 16 && y % 16 == c / 4;
    assert z / 64 == c % 4 && z % 64 == d;
  }

  lemma {:induction false} StrictInvertsEncode(data: seq<Byte>)
    ensures DecodeStrict(Encode(data)) == Some(data)
  {
    hide CharOf, DigitOf, First, Second, Third, Digit0, Digit1, Digit2, Digit3;
    var t := Encode(data);
    if data == [] {
    } else if |data| == 1 {
      Regroup(data[0], 0, 0);
      assert t[2..] == "==";
      assert data == [data[0]];
    } else if |data| == 2 {
      Regroup(data[0], data[1], 0);
      assert t[3..] == "=" && t[2..][0] == t[2] != '=';
      assert data == [data[0], data[1]];
    } else {
      Regroup(data[0], data[1], data[2]);
      assert t[4..] == Encode(data[3..]);
      assert t[2..][0] == t[2] != '=' && t[3..][0] == t[3] != '=';
      StrictInvertsEncode(data[3..]);
      assert data == [data[0], data[1], data[2]] + data[3..];
    }
  }

  lemma EncodeQuad(a: Sextet, b: Sextet, c: Sextet, d: Sextet, rest: seq<Byte>)
    ensures Encode([First(a, b), Second(b, c), Third(c, d)] + rest) ==
      [CharOf(a), CharOf(b), CharOf(c), CharOf(d)] + Encode(rest)
  {
    hide CharOf, First, Second, Third, Digit0, Digit1, Digit2, Digit3;
    Ungroup(a, b, c, d);
    assert ([First(a, b), Second(b, c), Third(c, d)] + rest)[3..] == rest;
  }

  lemma EncodeTail(a: Sextet, b: Sextet, c: Sextet)
    ensures b % 16 == 0 ==> Encode([First(a, b)]) == [CharOf(a), CharOf(b), '=', '=']
    ensures c % 4 == 0 ==> Encode([First(a, b), Second(b, c)]) == [CharOf(a), CharOf(b), CharOf(c), '=']
  {
    hide CharOf, First, Second, Third, Digit0, Digit1, Digit2, Digit3;
    Ungroup(a, b, c, 0);
  }

  lemma {:induction false} EncodeInvertsStrict(text: string)
    requires DecodeStrict(text).Some?
    ensures Encode(DecodeStrict(text).value) == text
  {
    hide CharOf, DigitOf, First, Second, Third;
    if text == "" {
    } else {
      var a, b := DigitOf(text[0]), DigitOf(text[1]);
      CharOfDigitOf(text[0]);
      CharOfDigitOf(text[1]);
      if text[2..] == "==" {
        EncodeTail(a, b, 0);
        assert text == text[..2] + text[2..];
      } else {
        var c := DigitOf(text[2]);
        CharOfDigitOf(text[2]);
        if text[3..] == "=" {
          EncodeTail(a, b, c);
          assert text == text[..3] + text[3..];
        } else {
          CharOfDigitOf(text[3]);
          EncodeQuad(a, b, c, DigitOf(text[3]), DecodeStrict(text[4..]).value);
          EncodeInvertsStrict(text[4..]);
          assert text == text[..4] + text[4..];
        }
      }
    }
  }

  // ----- The tolerant decoder undoes the encoder. -----

  // Padding and line breaks carry no bits.
  lemma {:induction false} DecodeNothing(text: string, acc: nat, bits: nat)
    requires bits in {0, 2, 4, 6} && acc < Width(bits)
    requires forall c :: c in text ==> !InAlphabet(c)
    ensures DecodeFrom(text, acc, bits) == []
  {
    if text == "" {
    } else {
      assert text[0] in text;
      DecodeNothing(text[1..], acc, bits);
    }
  }

  lemma DecodeTwo(a: Sextet, b: Sextet, rest: string)
    ensures Decode([CharOf(a), CharOf(b)] + rest) == [First(a, b)] + DecodeFrom(rest, b % 16, 4)
  {
    var t := [CharOf(a), CharOf(b)] + rest;
    assert t[1..] == [CharOf(b)] + rest && t[1..][1..] == rest;
    assert Decode(t) == DecodeFrom(t[1..], a, 6);
    assert (a * 64 + b) / 16 == First(a, b) && (a * 64 + b) % 16 == b % 16;
  }

  lemma DecodeThird(b: Sextet, c: Sextet, rest: string)
    ensures DecodeFrom([CharOf(c)] + rest, b % 16, 4) == [Second(b, c)] + DecodeFrom(rest, c % 4, 2)
  {
    assert ([CharOf(c)] + rest)[1..] == rest;
    assert (b % 16 * 64 + c) / 4 == Second(b, c) && (b % 16 * 64 + c) % 4 == c % 4;
  }

  lemma DecodeFourth(c: Sextet, d: Sextet, rest: string)
    ensures DecodeFrom([CharOf(d)] + rest, c % 4, 2) == [Third(c, d)] + Decode(rest)
  {
    assert ([CharOf(d)] + rest)[1..] == rest;
  }

  lemma DecodeQuad(x: Byte, y: Byte, z: Byte, rest: string)
    ensures Decode([CharOf(Digit0(x)), CharOf(Digit1(x, y)), CharOf(Digit2(y, z)), CharOf(Digit3(z))] + rest)
      == [x, y, z] + Decode(rest)
  {
    var a, b, c, d := Digit0(x), Digit1(x, y), Digit2(y, z), Digit3(z);
    hide *;
    Regroup(x, y, z);
    assert [CharOf(a), CharOf(b), CharOf(c), CharOf(d)] + rest
      == [CharOf(a), CharOf(b)] + ([CharOf(c)] + ([CharOf(d)] + rest));
    DecodeTwo(a, b, [CharOf(c)] + ([CharOf(d)] + rest));
    DecodeThird(b, c, [CharOf(d)] + rest);
    DecodeFourth(c, d, rest);
  }

  lemma DecodePad(d: Sextet)
    ensures DecodeFrom("==", d % 16, 4) == [] && DecodeFrom("=", d % 4, 2) == []
  {
    DecodeNothing("==", d % 16, 4);
    DecodeNothing("=", d % 4, 2);
  }

  lemma DecodeTail(x: Byte, y: Byte)
    ensures Decode([CharOf(Digit0(x)), CharOf(Digit1(x, 0)), '=', '=']) == [x]
    ensures Decode([CharOf(Digit0(x)), CharOf(Digit1(x, y)), CharOf(Digit2(y, 0)), '=']) == [x, y]
  {
    hide *;
    var a, b, b', c := Digit0(x), Digit1(x, 0), Digit1(x, y), Digit2(y, 0);
    DecodePad(b);
    DecodePad(c);
    Regroup(x, 0, 0);
    Regroup(x, y, 0);
    assert [CharOf(a), CharOf(b), '=', '='] == [CharOf(a), CharOf(b)] + "==";
    DecodeTwo(a, b, "==");
    assert [CharOf(a), CharOf(b'), CharOf(c), '='] == [CharOf(a), CharOf(b')] + ([CharOf(c)] + "=");
    DecodeTwo(a, b', [CharOf(c)] + "=");
    DecodeThird(b', c, "=");
  }

  lemma {:induction false} DecodeInvertsEncode(data: seq<Byte>)
    ensures Decode(Encode(data)) == data
  {
    hide DecodeFrom, CharOf, Digit0, Digit1, Digit2, Digit3;
    if |data| == 0 {
      assert Encode(data) == "" && data == [];
      DecodeNothing("", 0, 0);
    } else if |data| == 1 {
      DecodeTail(data[0], 0);
      assert data == [data[0]];
    } else if |data| == 2 {
      DecodeTail(data[0], data[1]);
      assert data == [data[0], data[1]];
    } else {
      DecodeQuad(data[0], data[1], data[2], Encode(data[3..]));
      DecodeInvertsEncode(data[3..]);
      assert data == [data[0], data[1], data[2]] + data[3..];
    }
  }

  // Line breaks inside the text do not matter (section 6.8 of RFC 2045).
  lemma {:induction false} DecodeIgnoresLineBreaks(text: string, acc: nat, bits: nat)
    requires bits in {0, 2, 4, 6} && acc < Width(bits)
    ensures DecodeFrom(Without(text, '\n'), acc, bits) == DecodeFrom(text, acc, bits)
  {
    if text == "" {
    } else if !InAlphabet(text[0]) {
      DecodeIgnoresLineBreaks(text[1..], acc, bits);
    } else {
      var v := acc * 64 + DigitOf(text[0]);
      if bits == 0 {
        DecodeIgnoresLineBreaks(text[1..], v, 6);
      } else {
        DecodeIgnoresLineBreaks(text[1..], v % Width(bits - 2), bits - 2);
      }
    }
  }

  // ----- What the encoded text is, said without groups: one number written twice. -----

  // The number whose digits in `base` are `digits`, written after `prefix`.
  function ValueAfter(prefix: nat, digits: seq<nat>, base: nat): (n: nat)
    decreases |digits|
  {
    if digits == [] then prefix else ValueAfter(prefix * base + digits[0], digits[1..], base)
  }

  function Digits(text: string): (digits: seq<nat>)
  {
    if text == "" then []
    else if InAlphabet(text[0]) then [DigitOf(text[0])] + Digits(text[1..])
    else Digits(text[1..])
  }

  // Bits added to fill the last six-bit digit, as a factor.
  function Filler(n: nat): (v: nat)
  {
    if n % 3 == 0 then 1 else if n % 3 == 1 then 16 else 4
  }

  lemma DigitsOne(d: Sextet, rest: string)
    ensures Digits([CharOf(d)] + rest) == [d] + Digits(rest)
  {
    assert ([CharOf(d)] + rest)[1..] == rest;
  }

  lemma ValueOne(prefix: nat, d: nat, rest: seq<nat>, base: nat)
    ensures ValueAfter(prefix, [d] + rest, base) == ValueAfter(prefix * base + d, rest, base)
  {
    assert ([d] + rest)[1..] == rest;
  }

  lemma QuadValue(p: nat, x: Byte, y: Byte, z: Byte)
    ensures (((p * 64 + Digit0(x)) * 64 + Digit1(x, y)) * 64 + Digit2(y, z)) * 64 + Digit3(z)
      == ((p * 256 + x) * 256 + y) * 256 + z
    ensures (p * 64 + Digit0(x)) * 64 + Digit1(x, 0) == (p * 256 + x) * 16
    ensures ((p * 64 + Digit0(x)) * 64 + Digit1(x, y)) * 64 + Digit2(y, 0) == ((p * 256 + x) * 256 + y) * 4
  {
    assert x == x / 4 * 4 + x % 4 && y == y / 16 * 16 + y % 16 && z == z / 64 * 64 + z % 64;
  }

  lemma ValueQuad(p: nat, a: Sextet, b: Sextet, c: Sextet, d: Sextet, rest: string)
    ensures ValueAfter(p, Digits([CharOf(a), CharOf(b), CharOf(c), CharOf(d)] + rest), 64) ==
      ValueAfter((((p * 64 + a) * 64 + b) * 64 + c) * 64 + d, Digits(rest), 64)
  {
    hide *;
    var r3 := [CharOf(d)] + rest;
    var r2 := [CharOf(c)] + r3;
    var r1 := [CharOf(b)] + r2;
    assert [CharOf(a), CharOf(b), CharOf(c), CharOf(d)] + rest == [CharOf(a)] + r1;
    DigitsOne(a, r1); DigitsOne(b, r2); DigitsOne(c, r3); DigitsOne(d, rest);
    ValueOne(p, a, Digits(r1), 64);
    ValueOne(p * 64 + a, b, Digits(r2), 64);
    ValueOne((p * 64 + a) * 64 + b, c, Digits(r3), 64);
    ValueOne(((p * 64 + a) * 64 + b) * 64 + c, d, Digits(rest), 64);
  }

  lemma ByteValue(p: nat, x: nat, y: nat, z: nat, rest: seq<nat>)
    ensures ValueAfter(p, [x, y, z] + rest, 256) == ValueAfter(((p * 256 + x) * 256 + y) * 256 + z, rest, 256)
  {
    hide *;
    assert [x, y, z] + rest == [x] + ([y] + ([z] + rest));
    ValueOne(p, x, [y] + ([z] + rest), 256);
    ValueOne(p * 256 + x, y, [z] + rest, 256);
    ValueOne((p * 256 + x) * 256 + y, z, rest, 256);
  }

  // The padded groups of the last one or two bytes.
  lemma TailDigits(a: Sextet, b: Sextet, c: Sextet)
    ensures Digits([CharOf(a), CharOf(b), '=', '=']) == [a, b]
    ensures Digits([CharOf(a), CharOf(b), CharOf(c), '=']) == [a, b, c]
  {
    hide CharOf, DigitOf;
    assert Digits("=") == [] && "=="[1..] == "=" && Digits("==") == [];
    DigitsOne(b, "==");
    DigitsOne(a, [CharOf(b)] + "==");
    assert [CharOf(a), CharOf(b), '=', '='] == [CharOf(a)] + ([CharOf(b)] + "==");
    DigitsOne(c, "=");
    DigitsOne(b, [CharOf(c)] + "=");
    DigitsOne(a, [CharOf(b)] + ([CharOf(c)] + "="));
    assert [CharOf(a), CharOf(b), CharOf(c), '='] == [CharOf(a)] + ([CharOf(b)] + ([CharOf(c)] + "="));
  }

  lemma TailValue(p: nat, base: nat, x: nat, y: nat, z: nat)
    ensures ValueAfter(p, [x], base) == p * base + x
    ensures ValueAfter(p, [x, y], base) == (p * base + x) * base + y
    ensures ValueAfter(p, [x, y, z], base) == ((p * base + x) * base + y) * base + z
  {
    assert [x] == [x] + [] && [x, y] == [x] + [y] && [x, y, z] == [x] + [y, z] && [y, z] == [y] + [z];
    ValueOne(p, x, [y, z], base);
    ValueOne(p * base + x, y, [z], base);
    ValueOne(p, x, [y], base);
    ValueOne(p * base + x, y, [], base);
    ValueOne((p * base + x) * base + y, z, [], base);
  }

  lemma ShortValue(p: nat, data: seq<Byte>)
    requires 1 <= |data| <= 2
    ensures ValueAfter(p, Digits(Encode(data)), 64) == ValueAfter(p, data, 256) * Filler(|data|)
  {
    hide CharOf, DigitOf, Digits, ValueAfter, Digit0, Digit1, Digit2, Digit3;
    var x, y := data[0], if |data| == 2 then data[1] else 0;
    QuadValue(p, x, y, 0);
    TailDigits(Digit0(x), Digit1(x, y), Digit2(y, 0));
    TailValue(p, 64, Digit0(x), Digit1(x, y), Digit2(y, 0));
    TailValue(p, 256, x, y, 0);
    assert data == if |data| == 2 then [x, y] else [x];
  }

  lemma EncodeStep(x: Byte, y: Byte, z: Byte, rest: seq<Byte>)
    ensures Encode([x, y, z] + rest) ==
      [CharOf(Digit0(x)), CharOf(Digit1(x, y)), CharOf(Digit2(y, z)), CharOf(Digit3(z))] + Encode(rest)
  {
    hide CharOf, Digit0, Digit1, Digit2, Digit3;
    assert ([x, y, z] + rest)[3..] == rest;
  }

  lemma FillerStep(n: nat)
    ensures Filler(n + 3) == Filler(n) && Filler(0) == 1
  {
  }

  // The six-bit digits of the text and the bytes of the data write the same number, up to the filler.
  lemma {:induction false} EncodeIsTheSameNumber(data: seq<Byte>, prefix: nat)
    ensures ValueAfter(prefix, Digits(Encode(data)), 64) == ValueAfter(prefix, data, 256) * Filler(|data|)
    decreases |data|
  {
    hide *;
    if |data| == 0 {
      NoValue(prefix);
      assert data == [];
    } else if |data| <= 2 {
      ShortValue(prefix, data);
    } else {
      var x, y, z, rest := data[0], data[1], data[2], data[3..];
      assert data == [x, y, z] + rest;
      EncodeStep(x, y, z, rest);
      FillerStep(|rest|);
      QuadValue(prefix, x, y, z);
      ValueQuad(prefix, Digit0(x), Digit1(x, y), Digit2(y, z), Digit3(z), Encode(rest));
      ByteValue(prefix, x, y, z, rest);
      EncodeIsTheSameNumber(rest, ((prefix * 256 + x) * 256 + y) * 256 + z);
    }
  }

  lemma NoValue(prefix: nat)
    ensures Encode([]) == ""
    ensures ValueAfter(prefix, Digits(""), 64) == ValueAfter(prefix, [], 256) == prefix
    ensures Filler(0) == 1
  {
  }

  // ----- Shape of the encoded text and the size prediction. -----

  function Padding(n: nat): (k: nat)
    ensures k <= 2 && (n + k) % 3 == 0
  {
    if n % 3 == 0 then 0 else 3 - n % 3
  }

  // Four characters for every started group of three bytes; only the padding is outside the
  // alphabet, and it is at the end.
  lemma {:induction false} EncodeShape(data: seq<Byte>)
    ensures |Encode(data)| == (|data| + Padding(|data|)) / 3 * 4
    ensures forall i :: 0 <= i < |Encode(data)| ==>
      if i < |Encode(data)| - Padding(|data|) then InAlphabet(Encode(data)[i]) else Encode(data)[i] == '='
    decreases |data|
  {
    hide CharOf, DigitOf;
    if |data| == 0 {
    } else if |data| >= 3 {
      EncodeShape(data[3..]);
      assert Padding(|data|) == Padding(|data| - 3);
    }
  }

  // How many of the last three characters are '='; texts shorter than three are not looked at.
  function PadCount(text: string): (n: nat)
  {
    if |text| < 3 then 0
    else var n := |text|;
      (if text[n - 1] == '=' then 1 else 0) + (if text[n - 2] == '=' then 1 else 0) +
      (if text[n - 3] == '=' then 1 else 0)
  }

  function PredictedSize(text: string): (n: int)
  {
    QuotTrunc(ToInt32(|text| * 3), 4) - PadCount(text)
  }

  method RealSize(b64: string) returns (size: int)
    requires |b64| <= INT_MAX
    ensures size == PredictedSize(b64)
    ensures forall data: seq<Byte> :: |data| <= 536870910 && b64 == Encode(data) ==> size == |data|
  {
    var b64size := |b64|;
    var cnt := 0;
    if b64size >= 3 {
      var i := 1;
      while i <= 3
        invariant 1 <= i <= 4
        invariant cnt == (if i > 1 && b64[b64size - 1] == '=' then 1 else 0) +
          (if i > 2 && b64[b64size - 2] == '=' then 1 else 0) +
          (if i > 3 && b64[b64size - 3] == '=' then 1 else 0)
      {
        if '=' == b64[b64size - i] {
          cnt := cnt + 1;
        }
        i := i + 1;
      }
    }
    size := QuotTrunc(ToInt32(b64size * 3), 4) - cnt;
    forall data: seq<Byte> | |data| <= 536870910 && b64 == Encode(data) ensures size == |data| {
      PredictionExact(data);
    }
  }

  lemma PadCountEncode(data: seq<Byte>)
    ensures PadCount(Encode(data)) == Padding(|data|)
  {
    EncodeShape(data);
    if |data| > 0 {
      PadsAre(Encode(data), Padding(|data|));
    }
  }

  lemma PadsAre(t: string, k: nat)
    requires |t| >= 3 && k <= 2
    requires forall i :: 0 <= i < |t| ==> if i < |t| - k then InAlphabet(t[i]) else t[i] == '='
    ensures PadCount(t) == k
  {
    assert !InAlphabet('=');
    hide InAlphabet;
    var n := |t|;
    assert t[n - 1] == '=' <==> 1 <= k;
    assert t[n - 2] == '=' <==> 2 <= k;
    assert t[n - 3] == '=' <==> 3 <= k;
  }

  // The prediction meets the decoded size exactly up to the data for which three times the
  // encoded length still fits an int; beyond, the multiplication has wrapped and it is wrong.
  lemma PredictionExact(data: seq<Byte>)
    requires |Encode(data)| <= INT_MAX
    ensures PredictedSize(Encode(data)) == |data| <==> |data| <= 536870910
  {
    EncodeShape(data);
    PadCountEncode(data);
    PredictionArithmetic(|data|, Padding(|data|));
  }

  // One byte more than the bound, and the wrapped product is negative.
  lemma PredictionWraps(data: seq<Byte>)
    requires |data| == 536870911
    ensures |Encode(data)| <= INT_MAX && PredictedSize(Encode(data)) == -536870913
  {
    EncodeShape(data);
    PadCountEncode(data);
  }

  // The same for any text the standard accepts: the size of what it decodes to.
  lemma PredictionOfText(text: string)
    requires |text| <= INT_MAX && DecodeStrict(text).Some?
    ensures PredictedSize(text) == |DecodeStrict(text).value| <==> |DecodeStrict(text).value| <= 536870910
  {
    EncodeInvertsStrict(text);
    PredictionExact(DecodeStrict(text).value);
  }

  lemma PredictionArithmetic(n: nat, k: nat)
    requires k <= 2 && (n + k) % 3 == 0 && (n + k) / 3 * 4 <= INT_MAX
    ensures QuotTrunc(ToInt32((n + k) / 3 * 4 * 3), 4) - k == n <==> n <= 536870910
  {
    var m := (n + k) / 3;
    assert n + k == 3 * m;
    assert m <= 536870911;
    var p := m * 4 * 3;
    if p <= INT_MAX {
      assert ToInt32(p) == p;
      assert p / 4 == 3 * m;
    } else {
      assert ToInt32(p) == p - 0x1_0000_0000;
    }
  }
}
