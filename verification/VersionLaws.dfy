/** The comparison of version strings as a total order on numeric triples. */
module VersionLaws {
  import opened Text
  import opened Regex
  import opened Decimal
  import opened Int32
  import opened Version
  import opened VersionText

  predicate IsNumber(s: string) { s != "" && AllDigits(s) }

  predicate IsTriple(w: string)
  {
    var p := Split(w, '.');
    |p| == 3 && IsNumber(p[0]) && IsNumber(p[1]) && IsNumber(p[2])
  }

  // ----- The unanchored match is as long as the text exactly for three dotted numbers -----

  lemma NumberThen(rest: seq<Item>, v: string, i: nat, e: nat)
    requires i < e <= |v| && (forall x :: i <= x < e ==> IsDigit(v[x])) && (e < |v| ==> !IsDigit(v[e]))
    requires MatchAt(rest, v, e).Some?
    ensures MatchAt([One(Digit), Many(Digit)] + rest, v, i) == MatchAt(rest, v, e)
  {
    RunEndIs(v, i + 1, Digit, e);
    ManyTakesRun(Digit, rest, v, i + 1);
    assert ([One(Digit), Many(Digit)] + rest)[1..] == [Many(Digit)] + rest;
  }

  lemma DotThen(rest: seq<Item>, v: string, i: nat)
    requires i < |v| && v[i] == '.'
    ensures MatchAt([One(Dot)] + rest, v, i) == MatchAt(rest, v, i + 1)
  {
    assert ([One(Dot)] + rest)[1..] == rest;
  }

  const NUMBER: seq<Item> := [One(Digit), Many(Digit)]

  lemma VersionItems()
    ensures VERSION == NUMBER + ([One(Dot)] + (NUMBER + ([One(Dot)] + (NUMBER + []))))
  {
  }

  lemma TripleMatches(a: string, b: string, c: string)
    requires IsNumber(a) && IsNumber(b) && IsNumber(c)
    ensures var v := a + "." + (b + "." + c); MatchAt(VERSION, v, 0) == Some(|v|)
  {
    var v := a + "." + (b + "." + c);
    var i, j := |a|, |a| + 1 + |b|;
    assert v[i] == '.' && v[j] == '.';
    assert forall x :: i < x < j ==> v[x] == b[x - i - 1];
    assert forall x :: j < x < |v| ==> v[x] == c[x - j - 1];
    hide MatchAt, VERSION, NUMBER, AllDigits;
    NoItems(v, |v|);
    NumberAt(c); NumberAt(b); NumberAt(a);
    NumberThen([], v, j + 1, |v|);
    DotThen([One(Digit), Many(Digit)] + [], v, j);
    NumberThen([One(Dot)] + ([One(Digit), Many(Digit)] + []), v, i + 1, j);
    DotThen([One(Digit), Many(Digit)] + ([One(Dot)] + ([One(Digit), Many(Digit)] + [])), v, i);
    NumberThen([One(Dot)] + ([One(Digit), Many(Digit)] + ([One(Dot)] + ([One(Digit), Many(Digit)] + []))), v, 0, i);
    NumberIs();
    VersionItems();
  }

  lemma NumberIs()
    ensures NUMBER == [One(Digit), Many(Digit)]
  {
  }

  lemma NumberAt(a: string)
    requires AllDigits(a)
    ensures forall x :: 0 <= x < |a| ==> IsDigit(a[x])
  {
  }

  lemma NoItems(v: string, i: nat)
    requires i <= |v|
    ensures MatchAt([], v, i) == Some(i)
  {
  }

  lemma NumberFits(rest: seq<Item>, v: string, i: nat, j: nat) returns (e: nat)
    requires i <= j <= |v| && Fits(NUMBER + rest, v, i, j)
    ensures i < e <= j && IsNumber(v[i..e]) && '.' !in v[i..e] && Fits(rest, v, e, j)
  {
    var re := NUMBER + rest;
    assert re[1..] == [Many(Digit)] + rest && re[1..][1..] == rest;
    e := ManyWitness(re[1..], Digit, v, i + 1, j);
    DigitsHaveNoDot(v, i, e);
  }

  lemma DotFits(rest: seq<Item>, v: string, i: nat, j: nat)
    requires i <= j <= |v| && Fits([One(Dot)] + rest, v, i, j)
    ensures i < j && v[i] == '.' && Fits(rest, v, i + 1, j)
  {
    assert ([One(Dot)] + rest)[1..] == rest;
  }

  lemma SplitTriple(a: string, b: string, c: string)
    requires '.' !in a && '.' !in b && '.' !in c
    ensures Split(a + "." + (b + "." + c), '.') == [a, b, c]
  {
    SplitFirst(a, '.', b + "." + c);
    SplitFirst(b, '.', c);
    SplitWhole(c, '.');
  }

  lemma VersionFits(v: string) returns (i: nat, j: nat)
    requires MatchAt(VERSION, v, 0) == Some(|v|)
    ensures 0 < i && i + 1 < j && j + 1 < |v| && v[i] == '.' && v[j] == '.'
    ensures IsNumber(v[0..i]) && IsNumber(v[i + 1..j]) && IsNumber(v[j + 1..|v|])
    ensures '.' !in v[0..i] && '.' !in v[i + 1..j] && '.' !in v[j + 1..|v|]
  {
    MatchIsFit(VERSION, v, 0);
    VersionItems();
    hide *;
    i := NumberFits([One(Dot)] + (NUMBER + ([One(Dot)] + (NUMBER + []))), v, 0, |v|);
    DotFits(NUMBER + ([One(Dot)] + (NUMBER + [])), v, i, |v|);
    j := NumberFits([One(Dot)] + (NUMBER + []), v, i + 1, |v|);
    DotFits(NUMBER + [], v, j, |v|);
    var e := NumberFits([], v, j + 1, |v|);
    NothingFits(v, e, |v|);
  }

  lemma MatchIsTriple(v: string)
    requires MatchAt(VERSION, v, 0) == Some(|v|)
    ensures IsTriple(v)
  {
    hide *;
    var i, j := VersionFits(v);
    var a, b, c := v[0..i], v[i + 1..j], v[j + 1..|v|];
    CutTwice(v, i, j);
    SplitTriple(a, b, c);
    ThreeNumbers(v, a, b, c);
  }

  lemma CutTwice(v: string, i: nat, j: nat)
    requires i < j < |v| && v[i] == '.' && v[j] == '.'
    ensures v == v[0..i] + "." + (v[i + 1..j] + "." + v[j + 1..|v|])
  {
  }

  lemma ThreeNumbers(v: string, a: string, b: string, c: string)
    requires Split(v, '.') == [a, b, c] && IsNumber(a) && IsNumber(b) && IsNumber(c)
    ensures IsTriple(v)
  {
  }

  lemma DigitsHaveNoDot(v: string, i: nat, j: nat)
    requires i < j <= |v| && forall x :: i <= x < j ==> IsDigit(v[x])
    ensures IsNumber(v[i..j]) && '.' !in v[i..j]
  {
  }

  lemma NothingFits(v: string, i: nat, j: nat)
    requires i <= j <= |v| && Fits([], v, i, j)
    ensures i == j
  {
  }

  // The pieces put together again.
  lemma TripleParts(v: string) returns (a: string, b: string, c: string)
    requires IsTriple(v)
    ensures IsNumber(a) && IsNumber(b) && IsNumber(c) && v == a + "." + (b + "." + c) && Split(v, '.') == [a, b, c]
  {
    var p := Split(v, '.');
    JoinSplit(v, '.');
    a, b, c := p[0], p[1], p[2];
    assert p == [a, b, c];
    assert [b, c][1..] == [c] && [a, b, c][1..] == [b, c];
    assert Join([b, c], ".") == b + "." + c;
    assert Join(p, ".") == a + "." + Join([b, c], ".");
  }

  lemma WholeIsTriple(v: string)
    ensures MatchesWhole(v) <==> IsTriple(v)
  {
    if IsTriple(v) {
      var a, b, c := TripleParts(v);
      TripleMatches(a, b, c);
    }
    if MatchesWhole(v) {
      assert MatchAt(VERSION, v, 0) == Some(|v|);
      MatchIsTriple(v);
    }
  }

  // ----- What a string says -----

  datatype Reading = NoVersion | TooLarge | Triple(a: nat, b: nat, c: nat)

  // The reference: no version unless the trimmed first run is three dotted numbers and nothing
  // behind it gets in the way; then the three numbers, unless one does not fit.
  function Read(s: string): (reading: Reading)
  {
    var w := Trim(FirstRun(s));
    if !TailFits(s) || !IsTriple(w) then NoVersion
    else
      var p := Split(w, '.');
      var a, b, c := Value(p[0]), Value(p[1]), Value(p[2]);
      if a > INT_MAX || b > INT_MAX || c > INT_MAX then TooLarge else Triple(a, b, c)
  }

  lemma TripleHasNoOther(v: string)
    requires IsTriple(v)
    ensures forall c :: c in v ==> !In(c, Other)
  {
    var a, b, c := TripleParts(v);
    NumberAt(a);
    NumberAt(b);
    NumberAt(c);
  }

  lemma StripReads(s: string)
    ensures MatchesWhole(Stripped(s)) <==> !Read(s).NoVersion?
    ensures MatchesWhole(Stripped(s)) ==> (IsNull(Parsed(Stripped(s))) <==> Read(s).TooLarge?)
    ensures Read(s).Triple? ==> Parsed(Stripped(s)) == Number(Read(s).a, Read(s).b, Read(s).c)
  {
    hide Stripped, MatchesWhole, Split, TailFits, Trim, FirstRun, Value;
    StrippedIsTrimmedRun(s);
    WholeIsTriple(Stripped(s));
    if IsTriple(Stripped(s)) {
      TripleHasNoOther(Stripped(s));
    }
  }

  function Lexicographic(x: Reading, y: Reading): (n: int)
    requires x.Triple? && y.Triple?
  {
    if x == y then 0
    else if x.a < y.a || (x.a == y.a && (x.b < y.b || (x.b == y.b && x.c < y.c))) then -1
    else 1
  }

  // The whole pipeline by what its two arguments say.
  lemma CompareMeans(s: string, t: string)
    ensures Compare(s, t) ==
      var x, y := Read(s), Read(t);
      if x.NoVersion? then -2
      else if y.NoVersion? then 2
      else if x.TooLarge? then -2
      else if y.TooLarge? then 2
      else Lexicographic(x, y)
  {
    hide Stripped, MatchesWhole, Parsed, Read;
    StripReads(s);
    StripReads(t);
  }

  // ----- The contract of the result -----

  predicate Suitable(s: string) { Read(s).Triple? }

  // A verdict on the order is given exactly when both strings are suitable. A complaint about the
  // first or second string is always justified; of two unsuitable strings the first is blamed,
  // unless only the second holds no version at all.
  lemma ReturnContract(s: string, t: string)
    ensures Compare(s, t) in {-1, 0, 1} <==> Suitable(s) && Suitable(t)
    ensures Compare(s, t) == -2 <==> !Suitable(s) && (Read(t).NoVersion? ==> Read(s).NoVersion?)
    ensures Compare(s, t) == 2 <==> !Suitable(t) && !(!Suitable(s) && (Read(t).NoVersion? ==> Read(s).NoVersion?))
    ensures Compare(s, t) in {-2, -1, 0, 1, 2}
  {
    hide Compare, Read;
    CompareMeans(s, t);
  }

  // Exchanging the arguments turns the result around, except for two strings unsuitable alike.
  lemma Exchange(s: string, t: string)
    ensures Compare(t, s) == -Compare(s, t) <==>
      !(Read(s).NoVersion? && Read(t).NoVersion?) && !(Read(s).TooLarge? && Read(t).TooLarge?)
  {
    hide Compare, Read;
    CompareMeans(s, t);
    CompareMeans(t, s);
  }

  // ----- A total order on what is suitable -----

  lemma OrderLaws(s: string, t: string, u: string)
    requires Suitable(s) && Suitable(t) && Suitable(u)
    ensures Compare(s, s) == 0
    ensures Compare(s, t) == 0 <==> Read(s) == Read(t)
    ensures Compare(s, t) <= 0 && Compare(t, u) <= 0 ==> Compare(s, u) <= 0
    ensures Compare(s, t) < 0 && Compare(t, u) <= 0 ==> Compare(s, u) < 0
    ensures Compare(s, t) <= 0 || Compare(t, s) <= 0
    ensures Compare(s, t) == 0 ==> Compare(s, u) == Compare(t, u) && Compare(u, s) == Compare(u, t)
  {
    hide Compare, Read;
    CompareMeans(s, s);
    CompareMeans(s, t);
    CompareMeans(t, s);
    CompareMeans(t, u);
    CompareMeans(s, u);
    CompareMeans(u, s);
    CompareMeans(u, t);
  }

  // Two strings compare alike with every string exactly when they say the same.
  ghost predicate Interchangeable(s: string, t: string)
  {
    forall u :: Compare(s, u) == Compare(t, u) && Compare(u, s) == Compare(u, t)
  }

  lemma SameForAll(s: string, t: string)
    ensures Interchangeable(s, t) <==> Read(s) == Read(t)
  {
    hide Compare, Read;
    if Read(s) == Read(t) {
      forall u ensures Compare(s, u) == Compare(t, u) && Compare(u, s) == Compare(u, t) {
        CompareMeans(s, u);
        CompareMeans(t, u);
        CompareMeans(u, s);
        CompareMeans(u, t);
      }
    } else {
      ToldApart(s, t);
    }
  }

  // Compared with one of the two, or with the empty string, they differ.
  lemma ToldApart(s: string, t: string)
    requires Read(s) != Read(t)
    ensures exists u :: Compare(s, u) != Compare(t, u)
  {
    hide Compare, Read;
    NothingRead();
    CompareMeans(s, "");
    CompareMeans(t, "");
    CompareMeans(s, s);
    CompareMeans(t, s);
    CompareMeans(s, t);
    CompareMeans(t, t);
    assert Compare(s, "") != Compare(t, "") || Compare(s, s) != Compare(t, s) || Compare(s, t) != Compare(t, t);
  }

  // ----- Normalising twice -----

  ghost predicate IsTrimmed(w: string)
  {
    (forall x :: 0 <= x < |w| ==> In(w[x], DigitOrDot)) && (w != "" ==> w[0] != '.' && w[|w| - 1] != '.')
  }

  lemma TrimmedStays(w: string)
    requires IsTrimmed(w)
    ensures TailFits(w) && FirstRun(w) == w && Trim(w) == w
  {
    RunEndIs(w, 0, Other, 0);
    RunEndIs(w, 0, DigitOrDot, |w|);
    RunEndIs(w, 0, Dot, 0);
    assert w[0..|w|] == w && w[0..] == w;
  }

  // From any character that is neither digit nor dot on, there is one whose tail can be cut.
  lemma {:induction false} SomeTail(t: string, x: nat) returns (y: nat)
    requires x < |t| && In(t[x], Other)
    ensures x <= y < |t| && TailAt(t, y)
    decreases |t| - x
  {
    var e := RunEnd(t, x + 1, DigitOrDot);
    if e == |t| {
      y := x;
      RunEndIs(t, x + 1, NotLineFeed, |t|);
    } else {
      y := SomeTail(t, e);
    }
  }

  lemma {:induction false} RemoveShrinks(re: seq<Item>, s: string, i: nat)
    requires i <= |s|
    ensures |RemoveFrom(re, s, i)| <= |s| - i
    decreases |s| - i
  {
    hide MatchAt;
    var m := MatchAt(re, s, i);
    if m.Some? && m.value > i {
      RemoveShrinks(re, s, m.value);
    } else if i < |s| {
      RemoveShrinks(re, s, i + 1);
    }
  }

  lemma StrippedShrinks(v: string)
    requires !TailFits(v)
    ensures |Stripped(v)| < |v|
  {
    var t := v[Start(v)..];
    ThreeLeft(v);
    TailAfterRun(v);
    var y := SomeTail(t, Stop(v) - Start(v));
    var u := t[..TailStart(t, 0)];
    RemoveShrinks(TRAILING_DOTS, u[RunEnd(u, 0, Dot)..], 0);
  }

  // Stripping twice is stripping once exactly when the text behind the first run did not get in
  // the way the first time.
  lemma StrippingAgain(s: string)
    ensures Stripped(Stripped(s)) == Stripped(s) <==> TailFits(s)
  {
    var v := Stripped(s);
    StrippedIsTrimmedRun(s);
    StrippedIsTrimmedRun(v);
    FirstRunShape(s);
    TrimShape(FirstRun(s));
    FirstRunShape(v);
    TrimShape(FirstRun(v));
    OtherIsNeither(Trim(FirstRun(v)));
    if TailFits(s) {
      TrimmedStays(v);
    } else if !TailFits(v) {
      StrippedShrinks(v);
    }
  }

  // ----- Decoration -----

  lemma StartShifts(p: string, s: string)
    requires forall c :: c in p ==> In(c, Other)
    ensures Start(p + s) == |p| + Start(s)
  {
    var t := p + s;
    assert forall x :: 0 <= x < |p| ==> t[x] == p[x] && p[x] in p;
    RunEndIs(t, 0, Other, |p| + Start(s));
  }

  lemma PrefixIgnored(p: string, s: string)
    requires forall c :: c in p ==> In(c, Other)
    ensures FirstRun(p + s) == FirstRun(s) && (TailFits(p + s) <==> TailFits(s))
    ensures Read(p + s) == Read(s)
  {
    hide RunEnd, Start;
    var t := p + s;
    assert t[|p|..] == s;
    StartShifts(p, s);
    RunEndShift(t, |p|, Start(s), DigitOrDot);
    if Stop(s) < |s| {
      RunEndShift(t, |p|, Stop(s) + 1, NotLineFeed);
    }
    assert FirstRun(t) == FirstRun(s);
  }

  lemma SuffixLeavesRun(s: string, t: string)
    requires FirstRun(s) != "" && (t != "" ==> In(t[0], Other))
    ensures FirstRun(s + t) == FirstRun(s)
  {
    RunEndIs(s + t, 0, Other, Start(s));
    RunEndIs(s + t, Start(s), DigitOrDot, Stop(s));
  }

  lemma OneLineFits(s: string)
    requires OneLine(s)
    ensures TailFits(s)
  {
    if Stop(s) < |s| {
      RunEndIs(s, Stop(s) + 1, NotLineFeed, |s|);
    }
  }

  lemma NoRun(s: string)
    requires FirstRun(s) == ""
    ensures forall c :: c in s ==> In(c, Other)
  {
    assert Start(s) == Stop(s);
    assert Start(s) == |s|;
  }

  // Text without digits and dots put before a string never matters. Text behind it, if it does not
  // add to its first run, does not matter exactly when
  // - the string has no digit or dot and the text holds no version itself, or
  // - it has, and its first run is no version or the text leaves line feeds behind the run in the
  //   way exactly if some were in the way before.
  lemma DecorationMatters(p: string, s: string, t: string)
    requires forall c :: c in p ==> In(c, Other)
    requires t != "" ==> In(t[0], Other)
    ensures Read(p + (s + t)) == Read(s + t)
    ensures FirstRun(s) == "" ==> Read(s + t) == Read(t)
    ensures Interchangeable(p + (s + t), s) <==>
      if FirstRun(s) == "" then Read(t).NoVersion?
      else IsTriple(Trim(FirstRun(s))) ==> (TailFits(s + t) <==> TailFits(s))
  {
    hide Compare, FirstRun, TailFits, Interchangeable, IsTriple, Trim;
    PrefixIgnored(p, s + t);
    SameForAll(p + (s + t), s);
    if FirstRun(s) == "" {
      NoRun(s);
      PrefixIgnored(s, t);
      NoRunNoVersion(s);
      hide Read;
    } else {
      SuffixLeavesRun(s, t);
    }
  }

  lemma NoRunNoVersion(s: string)
    requires FirstRun(s) == ""
    ensures Read(s) == NoVersion
  {
    SplitWhole("", '.');
  }

  // On one line, text around a string is ignored in every comparison exactly when the string has a
  // digit or dot or the text behind it holds no version.
  lemma DecorationIgnored(p: string, s: string, t: string)
    requires OneLine(s) && OneLine(t)
    requires forall c :: c in p ==> In(c, Other)
    requires t != "" ==> In(t[0], Other)
    ensures Read(p + (s + t)) == if FirstRun(s) == "" then Read(t) else Read(s)
    ensures Interchangeable(p + (s + t), s) <==> FirstRun(s) != "" || Read(t).NoVersion?
  {
    hide Interchangeable, Read, FirstRun, TailFits, IsTriple, Trim;
    DecorationMatters(p, s, t);
    OneLineFits(s);
    OneLineFits(s + t);
    if FirstRun(s) != "" {
      SuffixReads(s, t);
    }
  }

  lemma SuffixReads(s: string, t: string)
    requires OneLine(s) && OneLine(t) && FirstRun(s) != "" && (t != "" ==> In(t[0], Other))
    ensures Read(s + t) == Read(s)
  {
    SuffixLeavesRun(s, t);
    OneLineFits(s);
    OneLineFits(s + t);
  }

  // ----- Numerals -----

  // Three dotted numerals survive the normaliser and read as their values, leading zeros or not.
  lemma NumeralsRead(a: string, b: string, c: string)
    requires IsNumber(a) && IsNumber(b) && IsNumber(c)
    ensures var v := a + "." + (b + "." + c);
      Stripped(v) == v &&
      Read(v) == if Value(a) > INT_MAX || Value(b) > INT_MAX || Value(c) > INT_MAX then TooLarge
                 else Triple(Value(a), Value(b), Value(c))
  {
    hide Stripped, TailFits, FirstRun, Trim, Split, Value, AllDigits, IsTrimmed;
    var v := a + "." + (b + "." + c);
    DottedIsTrimmed(a, b, c);
    TrimmedStays(v);
    StrippedIsTrimmedRun(v);
    SplitTriple(a, b, c);
  }

  // Zeros in front of the numerals change neither what a version says nor any comparison.
  lemma LeadingZerosIgnored(x: string, y: string, z: string, a: string, b: string, c: string)
    requires IsNumber(a) && IsNumber(b) && IsNumber(c)
    requires forall d :: d in x + y + z ==> d == '0'
    ensures var v, w := a + "." + (b + "." + c), (x + a) + "." + ((y + b) + "." + (z + c));
      Read(w) == Read(v) && Interchangeable(w, v) && (Suitable(v) ==> Compare(w, v) == 0)
  {
    var v, w := a + "." + (b + "." + c), (x + a) + "." + ((y + b) + "." + (z + c));
    assert forall d :: d in x || d in y || d in z ==> d in x + y + z;
    ZerosValue(x, a);
    ZerosValue(y, b);
    ZerosValue(z, c);
    hide Read, Value, AllDigits, Compare;
    NumeralsRead(a, b, c);
    NumeralsRead(x + a, y + b, z + c);
    SameForAll(w, v);
    CompareMeans(w, v);
  }

  lemma {:induction false} ZerosValue(x: string, a: string)
    requires IsNumber(a) && forall d :: d in x ==> d == '0'
    ensures IsNumber(x + a) && Value(x + a) == Value(a)
  {
    if x == "" {
      assert x + a == a;
    } else {
      assert x[0] in x && forall d :: d in x[1..] ==> d in x;
      ZerosValue(x[1..], a);
      LeadingZero(x[1..] + a);
      assert x + a == "0" + (x[1..] + a);
    }
  }

  lemma DottedIsTrimmed(a: string, b: string, c: string)
    requires IsNumber(a) && IsNumber(b) && IsNumber(c)
    ensures IsTrimmed(a + "." + (b + "." + c)) && '.' !in a && '.' !in b && '.' !in c
  {
  }

  // Printing three numbers with dots and reading them back.
  lemma PrintedReads(a: nat, b: nat, c: nat)
    ensures var v := Print(a) + "." + (Print(b) + "." + Print(c));
      var fits := a <= 2147483647 && b <= 2147483647 && c <= 2147483647;
      Stripped(v) == v && MatchesWhole(v) &&
      (fits ==> Parsed(v) == Number(a, b, c)) && (!fits ==> IsNull(Parsed(v)))
  {
    var v := Print(a) + "." + (Print(b) + "." + Print(c));
    NumeralsRead(Print(a), Print(b), Print(c));
    ValuePrint(a);
    ValuePrint(b);
    ValuePrint(c);
    hide *;
    StripReads(v);
  }

  // ----- Inputs at which a plainer statement fails -----

  // Decoration behind a string with no digit and no dot changes what the string says.
  lemma DecorationCanCount()
    ensures Read("") == NoVersion && Read("v1.2.3") == Triple(1, 2, 3)
    ensures Compare("", "1.2.3") == -2 && Compare("v1.2.3", "1.2.3") == 0
  {
    hide *;
    NothingRead();
    OneTwoThree();
    VOneTwoThree();
    CompareMeans("", "1.2.3");
    CompareMeans("v1.2.3", "1.2.3");
    SameReading(1, 2, 3);
  }

  lemma VOneTwoThree()
    ensures Read("v1.2.3") == Read("1.2.3")
  {
    assert "v" + "1.2.3" == "v1.2.3";
    assert In('v', Other);
    hide Read, FirstRun, TailFits;
    PrefixIgnored("v", "1.2.3");
  }

  lemma SameReading(a: nat, b: nat, c: nat)
    ensures Lexicographic(Triple(a, b, c), Triple(a, b, c)) == 0
  {
  }

  lemma NothingRead()
    ensures Read("") == NoVersion
  {
    SplitWhole("", '.');
  }

  lemma OneTwoThree()
    ensures Read("1.2.3") == Triple(1, 2, 3)
  {
    Digits123();
    NumeralsRead("1", "2", "3");
    assert "1" + "." + ("2" + "." + "3") == "1.2.3";
  }

  lemma Digits123()
    ensures IsNumber("1") && IsNumber("2") && IsNumber("3")
    ensures Value("1") == 1 && Value("2") == 2 && Value("3") == 3
  {
    assert "1"[..0] == "" && "2"[..0] == "" && "3"[..0] == "";
  }

  // A line feed that text follows, behind the first run, hides the version and lets a second
  // stripping change the outcome of the first.
  lemma LineFeedCanHide()
    ensures !TailFits("1.2.3 \nx") && Read("1.2.3 \nx") == NoVersion
    ensures Stripped(Stripped("1.2.3 \nx")) != Stripped("1.2.3 \nx")
  {
    var s := "1.2.3 \nx";
    RunEndIs(s, 0, Other, 0);
    RunEndIs(s, 0, DigitOrDot, 5);
    RunEndIs(s, 6, NotLineFeed, 6);
    assert !TailFits(s);
    hide Stripped;
    StrippingAgain(s);
  }

  // A first string with a number too large and a second with no version: the second is blamed.
  lemma SecondCanBeBlamed()
    ensures var s := Print(INT_MAX + 1) + "." + (Print(0) + "." + Print(0));
      Read(s) == TooLarge && Compare(s, "") == 2
  {
    var s := Print(INT_MAX + 1) + "." + (Print(0) + "." + Print(0));
    ValuePrint(INT_MAX + 1);
    hide Print, Value, Read, Compare;
    NumeralsRead(Print(INT_MAX + 1), Print(0), Print(0));
    NothingRead();
    CompareMeans(s, "");
  }
}
