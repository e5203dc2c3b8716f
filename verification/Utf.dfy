/** UTF-16 strings and their UTF-8 form (section 3 of RFC 3629), with the conversions of the
    string class the program relies on: they never fail, and replace what cannot be converted. */
module Utf {
  import opened Text
  import opened Base64

  type CodeUnit = x: int | 0 <= x < 0x1_0000

  predicate IsHigh(u: int) { 0xD800 <= u <= 0xDBFF }
  predicate IsLow(u: int) { 0xDC00 <= u <= 0xDFFF }
  predicate IsScalar(c: int) { 0 <= c <= 0x10FFFF && !(0xD800 <= c <= 0xDFFF) }
  type Scalar = c: int | 0 <= c <= 0x10FFFF && !(0xD800 <= c <= 0xDFFF)

  predicate StartsWithPair(s: seq<CodeUnit>)
  {
    |s| >= 2 && IsHigh(s[0]) && IsLow(s[1])
  }

  function FromPair(h: CodeUnit, l: CodeUnit): (c: Scalar)
    requires IsHigh(h) && IsLow(l)
    ensures c >= 0x1_0000
  {
    0x1_0000 + (h - 0xD800) * 0x400 + (l - 0xDC00)
  }

  function Units(c: Scalar): (s: seq<CodeUnit>)
    ensures 1 <= |s| <= 2
  {
    if c < 0x1_0000 then var u: CodeUnit := c; [u]
    else
      var h: CodeUnit := 0xD800 + (c - 0x1_0000) / 0x400;
      var l: CodeUnit := 0xDC00 + (c - 0x1_0000) % 0x400;
      [h, l]
  }

  // Every surrogate is half of a pair.
  predicate WellFormed(s: seq<CodeUnit>)
  {
    if s == [] then true
    else if StartsWithPair(s) then WellFormed(s[2..])
    else IsScalar(s[0]) && WellFormed(s[1..])
  }

  const QUESTION_MARK: Scalar := 0x3F
  const REPLACEMENT: Scalar := 0xFFFD
  const BYTE_ORDER_MARK: Scalar := 0xFEFF

  // The first scalar value of a nonempty string and the number of units it takes; a lone
  // surrogate counts as a question mark.
  function Head(s: seq<CodeUnit>): (r: (Scalar, nat))
    requires s != []
    ensures 1 <= r.1 <= |s|
  {
    if StartsWithPair(s) then (FromPair(s[0], s[1]), 2)
    else if IsScalar(s[0]) then (s[0], 1)
    else (QUESTION_MARK, 1)
  }

  function ToUtf8(s: seq<CodeUnit>): (b: seq<Byte>)
    decreases |s|
  {
    if s == [] then [] else EncodeScalar(Head(s).0) + ToUtf8(s[Head(s).1..])
  }

  function EncodeScalar(c: Scalar): (b: seq<Byte>)
    ensures 1 <= |b| <= 4
  {
    if c < 0x80 then [Lead(c, 0)]
    else if c < 0x800 then [Lead(c / 0x40, 0xC0), Tail(c)]
    else if c < 0x1_0000 then [Lead(c / 0x40 / 0x40, 0xE0), Tail(c / 0x40), Tail(c)]
    else [Lead(c / 0x40 / 0x40 / 0x40, 0xF0), Tail(c / 0x40 / 0x40), Tail(c / 0x40), Tail(c)]
  }

  function Lead(v: nat, mark: Byte): (byte: Byte)
    requires v + mark < 0x100
  {
    v + mark
  }

  function Tail(v: nat): (byte: Byte) { 0x80 + v % 0x40 }

  predicate IsTail(b: Byte) { 0x80 <= b <= 0xBF }

  function Shift(v: nat, tail: Byte): (n: nat)
    requires IsTail(tail)
  {
    v * 0x40 + (tail - 0x80)
  }

  // The scalar value at the start of `b` and the number of bytes it takes; overlong forms,
  // surrogates and values beyond U+10FFFF are not accepted.
  function DecodeScalar(b: seq<Byte>): (r: Option<(Scalar, nat)>)
    ensures r.Some? ==> 1 <= r.value.1 <= |b|
  {
    if |b| >= 1 && b[0] < 0x80 then Some((b[0], 1))
    else if |b| >= 2 && 0xC0 <= b[0] < 0xE0 && IsTail(b[1]) then
      var c := Shift(b[0] - 0xC0, b[1]);
      if c >= 0x80 then Some((c, 2)) else None
    else if |b| >= 3 && 0xE0 <= b[0] < 0xF0 && IsTail(b[1]) && IsTail(b[2]) then
      var c := Shift(Shift(b[0] - 0xE0, b[1]), b[2]);
      if c >= 0x800 && IsScalar(c) then Some((c, 3)) else None
    else if |b| >= 4 && 0xF0 <= b[0] < 0xF8 && IsTail(b[1]) && IsTail(b[2]) && IsTail(b[3]) then
      var c := Shift(Shift(Shift(b[0] - 0xF0, b[1]), b[2]), b[3]);
      if c >= 0x1_0000 && IsScalar(c) then Some((c, 4)) else None
    else None
  }

  function Decoded(b: seq<Byte>): (s: seq<CodeUnit>)
    decreases |b|
  {
    if b == [] then []
    else match DecodeScalar(b)
      case Some(r) => Units(r.0) + Decoded(b[r.1..])
      case None => Units(REPLACEMENT) + Decoded(b[1..])
  }

  // Converting from UTF-8 stops at a zero byte and skips a leading byte order mark.
  function FromUtf8(b: seq<Byte>): (units: seq<CodeUnit>)
  {
    Decoded(SkipMark(UpToZero(b)))
  }

  function UpToZero(s: seq<int>): (r: seq<int>)
    ensures 0 !in r && r <= s
  {
    if s == [] || s[0] == 0 then [] else [s[0]] + UpToZero(s[1..])
  }

  function SkipMark(b: seq<Byte>): (bytes: seq<Byte>)
  {
    if [0xEF, 0xBB, 0xBF] <= b then b[3..] else b
  }

  // What the 16-bit string keeps of each of the three steps.
  function Sanitized(s: seq<CodeUnit>): (r: seq<CodeUnit>)
    decreases |s|
  {
    if s == [] then [] else Units(Head(s).0) + Sanitized(s[Head(s).1..])
  }

  function DropMark(s: seq<CodeUnit>): (units: seq<CodeUnit>)
  {
    if s != [] && s[0] == BYTE_ORDER_MARK then s[1..] else s
  }

  // ----- One scalar value -----

  lemma UnitsOfPair(h: CodeUnit, l: CodeUnit)
    requires IsHigh(h) && IsLow(l)
    ensures Units(FromPair(h, l)) == [h, l]
  {
  }

  lemma DecodeInvertsEncodeScalar(c: Scalar, rest: seq<Byte>)
    ensures DecodeScalar(EncodeScalar(c) + rest) == Some((c, |EncodeScalar(c)|))
  {
    var b := EncodeScalar(c) + rest;
    var q := c / 0x40;
    var r := q / 0x40;
    Rejoin(c);
    Rejoin(q);
    Rejoin(r);
    if c < 0x80 {
    } else if c < 0x800 {
      assert b[0] == 0xC0 + q && b[1] == Tail(c);
    } else if c < 0x1_0000 {
      assert b[0] == 0xE0 + r && b[1] == Tail(q) && b[2] == Tail(c);
    } else {
      assert b[0] == 0xF0 + r / 0x40 && b[1] == Tail(r) && b[2] == Tail(q) && b[3] == Tail(c);
    }
  }

  lemma Rejoin(v: nat)
    ensures IsTail(Tail(v)) && Shift(v / 0x40, Tail(v)) == v
  {
  }

  lemma Peel(v: nat, t: Byte)
    requires IsTail(t)
    ensures Shift(v, t) / 0x40 == v && Tail(Shift(v, t)) == t && Shift(v, t) < (v + 1) * 0x40
  {
  }

  // Only one byte sequence is accepted for each scalar value.
  lemma EncodeInvertsDecodeScalar(b: seq<Byte>)
    requires DecodeScalar(b).Some?
    ensures EncodeScalar(DecodeScalar(b).value.0) == b[..DecodeScalar(b).value.1]
  {
    var (c, n) := DecodeScalar(b).value;
    if n == 2 {
      Peel(b[0] - 0xC0, b[1]);
    } else if n == 3 {
      Peel(b[0] - 0xE0, b[1]);
      Peel(Shift(b[0] - 0xE0, b[1]), b[2]);
    } else if n == 4 {
      Peel(b[0] - 0xF0, b[1]);
      Peel(Shift(b[0] - 0xF0, b[1]), b[2]);
      Peel(Shift(Shift(b[0] - 0xF0, b[1]), b[2]), b[3]);
    }
    hide Shift, Tail;
  }

  // ----- Whole strings -----

  lemma {:induction false} DecodedToUtf8(s: seq<CodeUnit>)
    ensures Decoded(ToUtf8(s)) == Sanitized(s)
    decreases |s|
  {
    if s == [] {
    } else {
      var (c, n) := Head(s);
      DecodeInvertsEncodeScalar(c, ToUtf8(s[n..]));
      DecodedToUtf8(s[n..]);
      assert ToUtf8(s)[|EncodeScalar(c)|..] == ToUtf8(s[n..]);
    }
  }

  // A pair or a scalar value is kept; a lone surrogate is not.
  lemma HeadUnits(s: seq<CodeUnit>)
    requires s != []
    ensures var (c, n) := Head(s);
      n <= 2 && |Units(c)| == n && (Units(c) == s[..n] <==> StartsWithPair(s) || IsScalar(s[0])) &&
      (n == 2 <==> StartsWithPair(s))
  {
    if StartsWithPair(s) {
      UnitsOfPair(s[0], s[1]);
    }
  }

  lemma {:induction false} SanitizedKeeps(s: seq<CodeUnit>)
    ensures |Sanitized(s)| == |s|
    ensures Sanitized(s) == s <==> WellFormed(s)
    decreases |s|
  {
    if s == [] {
    } else {
      var (c, n) := Head(s);
      HeadUnits(s);
      SanitizedKeeps(s[n..]);
      hide Head, Units, IsScalar, StartsWithPair;
      assert Sanitized(s)[..n] == Units(c) && Sanitized(s)[n..] == Sanitized(s[n..]);
      assert s == s[..n] + s[n..];
    }
  }

  lemma {:induction false} UpToZeroSkips(a: seq<int>, b: seq<int>)
    requires 0 !in a
    ensures UpToZero(a + b) == a + UpToZero(b)
  {
    if a == [] {
      assert a + b == b;
    } else {
      assert (a + b)[1..] == a[1..] + b;
      UpToZeroSkips(a[1..], b);
    }
  }

  lemma {:induction false} UpToZeroToUtf8(s: seq<CodeUnit>)
    ensures UpToZero(ToUtf8(s)) == ToUtf8(UpToZero(s))
    decreases |s|
  {
    if s == [] || s[0] == 0 {
    } else {
      var (c, n) := Head(s);
      var rest := s[n..];
      UpToZeroSkips(EncodeScalar(c), ToUtf8(rest));
      assert s == s[..n] + rest;
      UpToZeroSkips(s[..n], rest);
      var t: seq<CodeUnit> := UpToZero(s);
      assert t == s[..n] + UpToZero(rest);
      assert Head(t) == (c, n) && t[n..] == UpToZero(rest);
      UpToZeroToUtf8(rest);
    }
  }

  lemma SkipMarkToUtf8(s: seq<CodeUnit>)
    ensures SkipMark(ToUtf8(s)) == ToUtf8(DropMark(s))
  {
    if s != [] {
      var (c, n) := Head(s);
      var rest := ToUtf8(s[n..]);
      MarkIs();
      assert ToUtf8(s) == EncodeScalar(c) + rest;
      hide EncodeScalar, DecodeScalar;
      if [0xEF, 0xBB, 0xBF] <= ToUtf8(s) {
        MarkFirst(c, rest);
        assert ToUtf8(s)[3..] == rest;
      }
    }
  }

  lemma MarkIs()
    ensures EncodeScalar(BYTE_ORDER_MARK) == [0xEF, 0xBB, 0xBF]
  {
  }

  lemma MarkFirst(c: Scalar, rest: seq<Byte>)
    requires [0xEF, 0xBB, 0xBF] <= EncodeScalar(c) + rest
    ensures c == BYTE_ORDER_MARK
  {
    var bytes := EncodeScalar(c) + rest;
    MarkIs();
    hide EncodeScalar, DecodeScalar;
    DecodeInvertsEncodeScalar(c, rest);
    DecodeInvertsEncodeScalar(BYTE_ORDER_MARK, bytes[3..]);
    assert EncodeScalar(BYTE_ORDER_MARK) + bytes[3..] == bytes;
  }

  // ----- Against the standards -----

  // Section 3 of RFC 3629: how many bytes, the range of each, and the bits they carry.
  lemma EncodedBits(c: Scalar)
    ensures var b: seq<int> := EncodeScalar(c);
      |b| == (if c <= 0x7F then 1 else if c <= 0x7FF then 2 else if c <= 0xFFFF then 3 else 4) &&
      (forall i :: 1 <= i < |b| ==> 0x80 <= b[i] <= 0xBF) &&
      (|b| == 1 ==> b[0] == c) &&
      (|b| == 2 ==> 0xC0 <= b[0] <= 0xDF && c == (b[0] - 0xC0) * 64 + (b[1] - 0x80)) &&
      (|b| == 3 ==> 0xE0 <= b[0] <= 0xEF && c == (b[0] - 0xE0) * 4096 + (b[1] - 0x80) * 64 + (b[2] - 0x80)) &&
      (|b| == 4 ==>
        0xF0 <= b[0] <= 0xF7 &&
        c == (b[0] - 0xF0) * 262144 + (b[1] - 0x80) * 4096 + (b[2] - 0x80) * 64 + (b[3] - 0x80))
  {
  }

  // Section 2 of RFC 2781: the surrogate pairs count through the scalar values from U+10000 to
  // U+10FFFF, one after the other.
  lemma PairsCount(h: CodeUnit, l: CodeUnit)
    requires IsHigh(h) && IsLow(l)
    ensures h == 0xD800 && l == 0xDC00 ==> FromPair(h, l) == 0x10000
    ensures h == 0xDBFF && l == 0xDFFF ==> FromPair(h, l) == 0x10FFFF
    ensures l < 0xDFFF ==> IsLow(l + 1) && FromPair(h, l + 1) == FromPair(h, l) + 1
    ensures l == 0xDFFF && h < 0xDBFF ==> IsHigh(h + 1) && FromPair(h + 1, 0xDC00) == FromPair(h, l) + 1
  {
  }

  // What is left of a string after a trip through UTF-8.
  function Kept(s: seq<CodeUnit>): (units: seq<CodeUnit>)
  {
    Sanitized(DropMark(UpToZero(s)))
  }

  lemma ThroughUtf8(s: seq<CodeUnit>)
    ensures FromUtf8(ToUtf8(s)) == Kept(s)
  {
    UpToZeroToUtf8(s);
    SkipMarkToUtf8(UpToZero(s));
    DecodedToUtf8(DropMark(UpToZero(s)));
  }

  predicate Survives(s: seq<CodeUnit>)
  {
    WellFormed(s) && 0 !in s && (s == [] || s[0] != BYTE_ORDER_MARK)
  }

  lemma KeptIsSame(s: seq<CodeUnit>)
    ensures Kept(s) == s <==> Survives(s)
  {
    SanitizedKeeps(DropMark(UpToZero(s)));
    if 0 !in s {
      UpToZeroSkips(s, []);
      assert s + [] == s && UpToZero(s) == s;
    } else {
      assert |UpToZero(s)| < |s| by {
        assert UpToZero(s) <= s;
      }
    }
  }
}

/** The two conversions of src/common.cpp between strings and their Base64 form. */
module TextCodec {
  import opened Base64
  import opened Utf

  // A byte array read as characters, and the reverse for seven-bit text.
  function Latin1(bytes: seq<Byte>): (s: string)
    ensures |s| == |bytes| && forall i :: 0 <= i < |s| ==> s[i] == bytes[i] as char
  {
    if bytes == [] then "" else [bytes[0] as char] + Latin1(bytes[1..])
  }

  predicate SevenBit(c: char) { 0 < c as int < 0x80 }

  function Codes(s: string): (bytes: seq<Byte>)
    requires forall c :: c in s ==> SevenBit(c)
    ensures |bytes| == |s| && forall i :: 0 <= i < |s| ==> bytes[i] == s[i] as int
  {
    if s == "" then []
    else
      assert SevenBit(s[0]);
      [s[0] as int] + Codes(s[1..])
  }

  function ToBase64(plain: seq<CodeUnit>): (base64: seq<CodeUnit>)
  {
    EncodeIsSevenBit(ToUtf8(plain));
    FromUtf8(Codes(Encode(ToUtf8(plain))))
  }

  function FromBase64(base64: seq<CodeUnit>): (plain: seq<CodeUnit>)
  {
    FromUtf8(Decode(Latin1(ToUtf8(base64))))
  }

  lemma EncodeIsSevenBit(data: seq<Byte>)
    ensures forall c :: c in Encode(data) ==> SevenBit(c)
  {
    EncodeShape(data);
  }

  lemma {:induction false} SevenBitUtf8(s: seq<Byte>)
    requires forall i :: 0 <= i < |s| ==> 0 < s[i] < 0x80
    ensures ToUtf8(s) == s && Survives(s)
  {
    if s == [] {
    } else {
      SevenBitUtf8(s[1..]);
      assert !StartsWithPair(s) && s == [s[0]] + s[1..];
    }
  }

  // A byte that starts no sequence comes back as U+FFFD, and what follows it is read on.
  lemma StrayByte()
    ensures FromUtf8([0xFF, 0x41]) == [0xFFFD, 0x41]
  {
    assert UpToZero([0xFF, 0x41]) == [0xFF, 0x41] by {
      assert [0xFF, 0x41][1..] == [0x41] && [0x41][1..] == [];
    }
    assert [0xFF, 0x41][1..] == [0x41] && [0x41][1..] == [];
    assert Decoded([0x41]) == [0x41] + Decoded([]);
  }

  // What is stored is the Base64 text of the UTF-8 bytes, character by character, and nothing else.
  lemma StoredIs(s: seq<CodeUnit>)
    ensures var text := Encode(ToUtf8(s));
      |ToBase64(s)| == |text| && forall i :: 0 <= i < |text| ==> ToBase64(s)[i] == text[i] as int
  {
    var data := ToUtf8(s);
    EncodeIsSevenBit(data);
    var text := Codes(Encode(data));
    assert forall i :: 0 <= i < |text| ==> Encode(data)[i] in Encode(data);
    SevenBitUtf8(text);
    ThroughUtf8(text);
    KeptIsSame(text);
  }

  // A stored text of seven-bit characters, padded or broken into lines as it may be, comes back as
  // the UTF-8 reading of what it decodes to.
  lemma ReadIs(stored: seq<CodeUnit>, text: string)
    requires |stored| == |text| && forall i :: 0 <= i < |text| ==> SevenBit(text[i]) && stored[i] == text[i] as int
    ensures FromBase64(stored) == FromUtf8(Decode(text))
  {
    SevenBitUtf8(stored);
    assert Latin1(ToUtf8(stored)) == text;
  }

  // A stored string comes back as far as its UTF-8 form keeps it.
  lemma Base64Keeps(s: seq<CodeUnit>)
    ensures FromBase64(ToBase64(s)) == Kept(s)
  {
    var data := ToUtf8(s);
    EncodeIsSevenBit(data);
    var text := Codes(Encode(data));
    assert forall i :: 0 <= i < |text| ==> Encode(data)[i] in Encode(data);
    SevenBitUtf8(text);
    ThroughUtf8(text);
    KeptIsSame(text);
    assert ToUtf8(ToBase64(s)) == text;
    assert Latin1(text) == Encode(data);
    DecodeInvertsEncode(data);
    ThroughUtf8(s);
  }

  // The round trip is the identity on exactly the well-formed strings that hold no U+0000 and
  // do not start with U+FEFF.
  lemma Base64RoundTrip(s: seq<CodeUnit>)
    ensures FromBase64(ToBase64(s)) == s <==> Survives(s)
  {
    Base64Keeps(s);
    KeptIsSame(s);
  }

  // A zero, a byte order mark and a lone surrogate do not come back.
  lemma StringsLost()
    ensures FromBase64(ToBase64([0])) == [] && FromBase64(ToBase64([0xFEFF])) == []
    ensures FromBase64(ToBase64([0xD800])) == [0x3F]
  {
    hide ToBase64, FromBase64;
    Base64Keeps([0]);
    Base64Keeps([0xFEFF]);
    Base64Keeps([0xD800]);
  }
}
