/** The comparison of version strings said character by character. */
module VersionShape {
  import opened Text
  import opened Regex
  import opened Decimal
  import opened Version
  import opened VersionText
  import opened VersionLaws

  predicate Dotted(c: char) { '0' <= c <= '9' || c == '.' }

  ghost predicate Undotted(s: string) { forall i :: 0 <= i < |s| ==> !Dotted(s[i]) }
  ghost predicate Dots(s: string) { forall i :: 0 <= i < |s| ==> s[i] == '.' }

  // No line feed between the first and the last character.
  ghost predicate Ends(t: string) { forall i :: 1 <= i < |t| - 1 ==> t[i] != '\n' }

  // A nonempty run of digits.
  ghost predicate Numeral(s: string) { s != "" && forall i :: 0 <= i < |s| ==> '0' <= s[i] <= '9' }

  lemma ClassesMean(c: char)
    ensures In(c, Other) <==> !Dotted(c)
    ensures In(c, DigitOrDot) <==> Dotted(c)
    ensures In(c, Digit) <==> '0' <= c <= '9'
    ensures In(c, Dot) <==> c == '.'
    ensures In(c, NotLineFeed) <==> c != '\n'
  {
  }

  lemma NumeralIs(s: string)
    ensures Numeral(s) <==> IsNumber(s)
  {
  }

  // The first run of a string: what is before it, the run, and the character after it.
  lemma FirstRunIs(s: string)
    ensures Undotted(s[..Start(s)]) && s == s[..Start(s)] + FirstRun(s) + s[Stop(s)..]
    ensures forall i :: 0 <= i < |FirstRun(s)| ==> Dotted(FirstRun(s)[i])
    ensures Stop(s) < |s| ==> !Dotted(s[Stop(s)])
    ensures FirstRun(s) == "" ==> Undotted(s)
  {
    forall c: char ensures (In(c, Other) <==> !Dotted(c)) && (In(c, DigitOrDot) <==> Dotted(c)) {
      ClassesMean(c);
    }
    hide In, Dotted;
  }

  // ----- A version wrapped in other text -----

  // The text `s` is three numerals with dots between them, with dots around, text free of digits
  // and dots before that, and text behind it that starts with neither.
  ghost predicate Wraps(s: string, p: string, q: string, a: string, b: string, c: string, r: string, t: string)
  {
    s == p + (q + (a + "." + (b + "." + c)) + r + t) && Undotted(p) && Dots(q) && Dots(r) && Numeral(a) && Numeral(b) &&
    Numeral(c) && (t != "" ==> !Dotted(t[0]))
  }

  lemma DottedNumerals(a: string, b: string, c: string)
    requires Numeral(a) && Numeral(b) && Numeral(c)
    ensures var v := a + "." + (b + "." + c);
      v != "" && v[0] != '.' && v[|v| - 1] != '.' && forall i :: 0 <= i < |v| ==> Dotted(v[i])
  {
    var v := a + "." + (b + "." + c);
    forall i | 0 <= i < |v| ensures Dotted(v[i]) {
      assert i < |a| ==> v[i] == a[i];
      assert |a| < i <= |a| + |b| ==> v[i] == b[i - |a| - 1];
      assert i > |a| + 1 + |b| ==> v[i] == c[i - |a| - |b| - 2];
    }
    assert v[0] == a[0] && v[|v| - 1] == c[|c| - 1];
  }

  // The first run of a version with dots around it and other text behind it, and that run trimmed.
  lemma RunOfWrapped(q: string, v: string, r: string, t: string)
    requires Dots(q) && Dots(r) && v != "" && v[0] != '.' && v[|v| - 1] != '.'
    requires forall i :: 0 <= i < |v| ==> Dotted(v[i])
    requires t != "" ==> !Dotted(t[0])
    ensures FirstRun(q + v + r + t) == q + v + r && Trim(q + v + r) == v
  {
    var w, s := q + v + r, q + v + r + t;
    assert forall i :: 0 <= i < |w| ==> Dotted(w[i]) && s[i] == w[i];
    assert |w| < |s| ==> s[|w|] == t[0];
    forall c: char ensures (In(c, Other) <==> !Dotted(c)) && (In(c, DigitOrDot) <==> Dotted(c)) {
      ClassesMean(c);
    }
    ClassesMean('.');
    hide In, Dotted;
    RunEndIs(s, 0, Other, 0);
    RunEndIs(s, 0, DigitOrDot, |w|);
    TrimWrapped(q, v, r);
  }

  lemma TrimWrapped(q: string, v: string, r: string)
    requires Dots(q) && Dots(r) && v != "" && v[0] != '.' && v[|v| - 1] != '.'
    ensures Trim(q + v + r) == v
  {
    var w := q + v + r;
    forall i | 0 <= i <= |q| ensures In(w[i], Dot) <==> i < |q| {
      ClassesMean(w[i]);
      assert i < |q| ==> w[i] == q[i];
    }
    RunEndIs(w, 0, Dot, |q|);
    assert w[|q|..] == v + r;
    TrimEndDots(v, r);
  }

  lemma TrimEndDots(v: string, r: string)
    requires Dots(r) && v != "" && v[|v| - 1] != '.'
    ensures TrimEnd(v + r) == v
  {
    var e := TrimEnd(v + r);
    assert e <= v + r && (v + r)[|v| - 1] == v[|v| - 1];
    assert forall i :: |v| <= i < |v + r| ==> (v + r)[i] == r[i - |v|];
    assert |e| == |v|;
  }

  // A version says the same in whatever it is wrapped, and compares alike with every string.
  lemma WrappedReads(s: string, p: string, q: string, a: string, b: string, c: string, r: string, t: string)
    requires Wraps(s, p, q, a, b, c, r, t) && Ends(t)
    ensures Read(s) == Read(a + "." + (b + "." + c)) && Interchangeable(s, a + "." + (b + "." + c))
  {
    var v := a + "." + (b + "." + c);
    DottedNumerals(a, b, c);
    hide Read, Interchangeable, FirstRun, TailFits, Dotted, Trim;
    BareReads(q, v, r, t);
    AllOther(p);
    PrefixIgnored(p, q + v + r + t);
    SameForAll(s, v);
  }

  lemma AllOther(p: string)
    requires Undotted(p)
    ensures forall d :: d in p ==> In(d, Other)
  {
    forall d | d in p ensures In(d, Other) {
      ClassesMean(d);
    }
  }

  // Without the text before it, a version says the same.
  lemma {:induction false} BareReads(q: string, v: string, r: string, t: string)
    requires Dots(q) && Dots(r) && v != "" && v[0] != '.' && v[|v| - 1] != '.' && Ends(t)
    requires (forall i :: 0 <= i < |v| ==> Dotted(v[i])) && (t != "" ==> !Dotted(t[0]))
    ensures Read(q + v + r + t) == Read(v)
  {
    var w := q + v + r;
    assert forall i :: 0 <= i < |w| ==> Dotted(w[i]);
    RunOfWrapped(q, v, r, t);
    RunOfWrapped("", v, "", "");
    EmptyAround(v);
    hide Read, FirstRun, TailFits, Dotted, Trim, Dots, Ends;
    TailFitsEnds(w, t);
    TailFitsEnds(v, "");
    SameRun(w + t, v);
  }

  lemma EmptyAround(v: string)
    ensures "" + v + "" + "" == v && "" + v + "" == v && v + "" == v && Ends("")
  {
  }

  // The text behind the run is not in the way exactly if it has no line feed between its first and
  // its last character.
  lemma TailFitsEnds(w: string, t: string)
    requires w != "" && (forall i :: 0 <= i < |w| ==> Dotted(w[i])) && (t != "" ==> !Dotted(t[0]))
    ensures TailFits(w + t) <==> Ends(t)
  {
    var s := w + t;
    assert forall i :: 0 <= i < |w| ==> s[i] == w[i];
    assert forall i :: 0 <= i < |t| ==> s[|w| + i] == t[i];
    StopIs(w, t);
    forall c ensures In(c, NotLineFeed) <==> c != '\n' {
      ClassesMean(c);
    }
    hide In, Dotted, Start, Stop;
    if t != "" {
      var e := RunEnd(s, |w| + 1, NotLineFeed);
      assert e < |s| ==> t[e - |w|] == '\n';
      assert forall i :: |w| + 1 <= i < e ==> s[i] != '\n';
    }
  }

  lemma StopIs(w: string, t: string)
    requires w != "" && (forall i :: 0 <= i < |w| ==> Dotted(w[i])) && (t != "" ==> !Dotted(t[0]))
    ensures Stop(w + t) == |w|
  {
    var s := w + t;
    assert forall i :: 0 <= i < |w| ==> s[i] == w[i];
    forall c: char ensures (In(c, Other) <==> !Dotted(c)) && (In(c, DigitOrDot) <==> Dotted(c)) {
      ClassesMean(c);
    }
    hide In, Dotted;
    RunEndIs(s, 0, Other, 0);
    RunEndIs(s, 0, DigitOrDot, |w|);
  }

  lemma SameRun(s: string, t: string)
    requires Trim(FirstRun(s)) == Trim(FirstRun(t)) && TailFits(s) && TailFits(t)
    ensures Read(s) == Read(t)
  {
  }

  // ----- Which strings are suitable, and how they compare -----

  ghost predicate IsVersion(s: string, a: string, b: string, c: string)
  {
    (exists p, q, r, t :: Wraps(s, p, q, a, b, c, r, t) && Ends(t)) &&
    AllDigits(a) && AllDigits(b) && AllDigits(c) &&
    Value(a) <= 2147483647 && Value(b) <= 2147483647 && Value(c) <= 2147483647
  }

  lemma VersionReads(s: string, a: string, b: string, c: string)
    requires IsVersion(s, a, b, c)
    ensures Read(s) == Triple(Value(a), Value(b), Value(c))
  {
    var p, q, r, t :| Wraps(s, p, q, a, b, c, r, t) && Ends(t);
    NumeralIs(a);
    NumeralIs(b);
    NumeralIs(c);
    hide Read, Interchangeable, Value, Dots, Undotted;
    WrappedReads(s, p, q, a, b, c, r, t);
    NumeralsRead(a, b, c);
  }

  // The comparison of two versions, whatever they are wrapped in: by the first component in which
  // they differ.
  lemma {:induction false} VersionsCompare(s: string, a: string, b: string, c: string, t: string, d: string, e: string,
      f: string)
    requires IsVersion(s, a, b, c) && IsVersion(t, d, e, f)
    ensures Compare(s, t) ==
      if Value(a) != Value(d) then (if Value(a) < Value(d) then -1 else 1)
      else if Value(b) != Value(e) then (if Value(b) < Value(e) then -1 else 1)
      else if Value(c) != Value(f) then (if Value(c) < Value(f) then -1 else 1)
      else 0
  {
    VersionReads(s, a, b, c);
    VersionReads(t, d, e, f);
    ReadingsCompare(s, Value(a), Value(b), Value(c), t, Value(d), Value(e), Value(f));
    hide *;
  }

  lemma ReadingsCompare(s: string, a: nat, b: nat, c: nat, t: string, d: nat, e: nat, f: nat)
    requires Read(s) == Triple(a, b, c) && Read(t) == Triple(d, e, f)
    ensures Compare(s, t) ==
      if a != d then (if a < d then -1 else 1)
      else if b != e then (if b < e then -1 else 1)
      else if c != f then (if c < f then -1 else 1)
      else 0
  {
    hide Read, Compare;
    CompareMeans(s, t);
  }

  // Exactly these strings are suitable.
  lemma SuitableIff(s: string)
    ensures Suitable(s) <==> exists a, b, c :: IsVersion(s, a, b, c)
  {
    if Suitable(s) {
      var a, b, c := PartsOfSuitable(s);
    }
    if a, b, c :| IsVersion(s, a, b, c) {
      VersionReads(s, a, b, c);
    }
  }

  lemma PartsOfSuitable(s: string) returns (a: string, b: string, c: string)
    requires Suitable(s)
    ensures IsVersion(s, a, b, c)
  {
    a, b, c := ReadParts(s);
    NumeralIs(a);
    NumeralIs(b);
    NumeralIs(c);
    NumberDigits(a, b, c);
    hide *;
    var p, q, r, t := CutAround(s, a + "." + (b + "." + c));
    ItWraps(s, p, q, a, b, c, r, t);
  }

  lemma NumberDigits(a: string, b: string, c: string)
    requires IsNumber(a) && IsNumber(b) && IsNumber(c)
    ensures AllDigits(a) && AllDigits(b) && AllDigits(c)
  {
  }

  lemma ReadParts(s: string) returns (a: string, b: string, c: string)
    requires Suitable(s)
    ensures IsNumber(a) && IsNumber(b) && IsNumber(c) && Trim(FirstRun(s)) == a + "." + (b + "." + c) && TailFits(s)
    ensures Value(a) <= 2147483647 && Value(b) <= 2147483647 && Value(c) <= 2147483647
  {
    a, b, c := TripleParts(Trim(FirstRun(s)));
    hide FirstRun, Trim, Value, TailFits, Split;
  }

  lemma {:induction false} CutAround(s: string, v: string) returns (p: string, q: string, r: string, t: string)
    requires TailFits(s) && v != "" && Trim(FirstRun(s)) == v
    ensures s == p + (q + v + r + t) && Undotted(p) && Dots(q) && Dots(r) && (t != "" ==> !Dotted(t[0])) && Ends(t)
  {
    hide *;
    var w := FirstRun(s);
    q, r := Around(w);
    assert w != "";
    p, t := CutRun(s);
    assert s == p + (q + v + r + t);
  }

  // A string around its first run.
  lemma {:induction false} CutRun(s: string) returns (p: string, t: string)
    requires FirstRun(s) != ""
    ensures s == p + (FirstRun(s) + t) && Undotted(p) && (t != "" ==> !Dotted(t[0])) && (TailFits(s) <==> Ends(t))
  {
    var w := FirstRun(s);
    FirstRunIs(s);
    p, t := s[..Start(s)], s[Stop(s)..];
    AllOther(p);
    hide *;
    assert s == p + (w + t);
    PrefixIgnored(p, w + t);
    TailFitsEnds(w, t);
  }

  lemma ItWraps(s: string, p: string, q: string, a: string, b: string, c: string, r: string, t: string)
    requires s == p + (q + (a + "." + (b + "." + c)) + r + t) && Undotted(p) && Dots(q) && Dots(r)
    requires (t != "" ==> !Dotted(t[0])) && Ends(t) && Numeral(a) && Numeral(b) && Numeral(c)
    requires AllDigits(a) && AllDigits(b) && AllDigits(c)
    requires Value(a) <= 2147483647 && Value(b) <= 2147483647 && Value(c) <= 2147483647
    ensures IsVersion(s, a, b, c)
  {
    hide Undotted, Dots, Dotted, Numeral, Value, AllDigits;
    assert Wraps(s, p, q, a, b, c, r, t);
  }

  lemma Around(w: string) returns (q: string, r: string)
    ensures w == q + Trim(w) + r && Dots(q) && Dots(r)
  {
    var i := RunEnd(w, 0, Dot);
    q := w[..i];
    r := w[i..][|Trim(w)|..];
    forall x | 0 <= x < i ensures q[x] == '.' {
      ClassesMean(q[x]);
    }
    assert w[i..] == Trim(w) + r;
  }

  // Ten is more than nine, and text behind a version does not count.
  lemma TenAfterNine()
    ensures Compare("4.10.0", "4.9.3-string\n") == 1
  {
    Examples();
    hide *;
    VersionsCompare("4.10.0", "4", "10", "0", "4.9.3-string\n", "4", "9", "3");
    ValuesOf();
  }

  lemma ValuesOf()
    ensures AllDigits("4") && AllDigits("10") && AllDigits("0") && AllDigits("9") && AllDigits("3")
    ensures Value("4") == 4 && Value("10") == 10 && Value("9") == 9 && Value("0") == 0 && Value("3") == 3
  {
    assert "4"[..0] == "" && "10"[..1] == "1" && "1"[..0] == "" && "9"[..0] == "" && "0"[..0] == "" && "3"[..0] == "";
  }

  lemma Examples()
    ensures IsVersion("4.10.0", "4", "10", "0") && IsVersion("4.9.3-string\n", "4", "9", "3")
  {
    ValuesOf();
    assert "4.10.0" == "" + ("" + ("4" + "." + ("10" + "." + "0")) + "" + "");
    assert "4.9.3-string\n" == "" + ("" + ("4" + "." + ("9" + "." + "3")) + "" + "-string\n");
    hide Value;
    assert Wraps("4.10.0", "", "", "4", "10", "0", "", "");
    assert Wraps("4.9.3-string\n", "", "", "4", "9", "3", "", "-string\n");
  }

  // ----- Parsing alone -----

  // A text parses to a version number exactly if it is three numerals with dots between them that
  // fit; otherwise the number is null.
  lemma ParsedIs(s: string)
    ensures !IsNull(Parsed(s)) <==> exists a, b, c :: IsPlain(s, a, b, c)
    ensures forall a, b, c :: IsPlain(s, a, b, c) ==> Parsed(s) == Number(Value(a), Value(b), Value(c))
  {
    forall a, b, c | IsPlain(s, a, b, c) ensures Parsed(s) == Number(Value(a), Value(b), Value(c)) {
      PlainParses(s, a, b, c);
    }
    if !IsNull(Parsed(s)) {
      var a, b, c := ParsedParts(s);
    }
  }

  ghost predicate IsPlain(s: string, a: string, b: string, c: string)
  {
    s == a + "." + (b + "." + c) && Numeral(a) && Numeral(b) && Numeral(c) &&
    AllDigits(a) && AllDigits(b) && AllDigits(c) &&
    Value(a) <= 2147483647 && Value(b) <= 2147483647 && Value(c) <= 2147483647
  }

  lemma PlainParses(s: string, a: string, b: string, c: string)
    requires IsPlain(s, a, b, c)
    ensures Parsed(s) == Number(Value(a), Value(b), Value(c))
  {
    NumeralIs(a);
    NumeralIs(b);
    NumeralIs(c);
    DottedIsTrimmed(a, b, c);
    hide Value, Split, AllDigits;
    SplitTriple(a, b, c);
  }

  lemma ParsedParts(s: string) returns (a: string, b: string, c: string)
    requires !IsNull(Parsed(s))
    ensures IsPlain(s, a, b, c)
  {
    hide Value, Split, AllDigits;
    var p := Split(s, '.');
    assert |p| == 3 && ToInt(p[0]).Some? && ToInt(p[1]).Some? && ToInt(p[2]).Some?;
    assert IsTriple(s);
    a, b, c := TripleParts(s);
    NumeralIs(a);
    NumeralIs(b);
    NumeralIs(c);
  }
}
