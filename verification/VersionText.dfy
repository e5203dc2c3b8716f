/** What the four deletions of the version normaliser leave, for every string. */
module VersionText {
  import opened Text
  import opened Regex
  import opened Version

  // ----- The reference: the first run of digits and dots -----

  function Start(s: string): (i: nat) ensures i <= |s| { RunEnd(s, 0, Other) }
  function Stop(s: string): (i: nat) ensures Start(s) <= i <= |s| { RunEnd(s, Start(s), DigitOrDot) }
  function FirstRun(s: string): (text: string) { s[Start(s)..Stop(s)] }

  function TrimEnd(w: string): (r: string)
    ensures r <= w
    ensures forall i :: |r| <= i < |w| ==> w[i] == '.'
    ensures r != "" ==> r[|r| - 1] != '.'
  {
    if w != "" && w[|w| - 1] == '.' then TrimEnd(w[..|w| - 1]) else w
  }

  function Trim(w: string): (text: string) { TrimEnd(w[RunEnd(w, 0, Dot)..]) }

  // After the character that ends the first run, no line feed but perhaps a last one.
  predicate TailFits(s: string)
  {
    Stop(s) == |s| || RunEnd(s, Stop(s) + 1, NotLineFeed) >= |s| - 1
  }

  // ----- The deletions at the start -----

  lemma {:induction false} NothingMore(k: Class, s: string, i: nat)
    requires 0 < i <= |s|
    ensures RemoveFrom([Begin, Many(k)], s, i) == s[i..]
    decreases |s| - i
  {
    assert MatchAt([Begin, Many(k)], s, i).None?;
    if i == |s| {
    } else {
      NothingMore(k, s, i + 1);
    }
  }

  lemma RemoveAtStart(k: Class, s: string)
    ensures RemoveAll([Begin, Many(k)], s) == s[RunEnd(s, 0, k)..]
  {
    assert [Many(k)] + [] == [Many(k)] && [Begin, Many(k)][1..] == [Many(k)];
    ManyTakesRun(k, [], s, 0);
    var e := RunEnd(s, 0, k);
    if e > 0 {
      NothingMore(k, s, e);
    } else if |s| > 0 {
      NothingMore(k, s, 1);
    }
  }

  // ----- The deletion of the tail -----

  predicate TailAt(s: string, i: nat)
    requires i <= |s|
  {
    i < |s| && In(s[i], Other) && RunEnd(s, i + 1, NotLineFeed) >= |s| - 1
  }

  function TailStart(s: string, i: nat): (t: nat)
    requires i <= |s|
    ensures i <= t <= |s|
    ensures forall x :: i <= x < t ==> !TailAt(s, x)
    ensures t < |s| ==> TailAt(s, t)
    decreases |s| - i
  {
    if i == |s| || TailAt(s, i) then i else TailStart(s, i + 1)
  }

  lemma MatchTail(s: string, i: nat)
    requires i <= |s|
    ensures MatchAt(TRAILING, s, i) == if TailAt(s, i) then Some(RunEnd(s, i + 1, NotLineFeed)) else None
  {
    if i < |s| && In(s[i], Other) {
      var e := RunEnd(s, i + 1, NotLineFeed);
      assert TRAILING[1..] == [Many(NotLineFeed)] + [End] && [End][1..] == [];
      forall m | i < m <= |s| ensures MatchAt([End], s, m) == if AtEnd(s, m) then Some(m) else None {
      }
      if e >= |s| - 1 {
        ManyTakesRun(NotLineFeed, [End], s, i + 1);
      } else {
        ManyFails(NotLineFeed, [End], s, i + 1);
      }
    }
  }

  lemma {:induction false} RemoveTail(s: string, i: nat)
    requires i <= |s|
    ensures RemoveFrom(TRAILING, s, i) == s[i..TailStart(s, i)]
    decreases |s| - i
  {
    MatchTail(s, i);
    if TailAt(s, i) {
      var e := RunEnd(s, i + 1, NotLineFeed);
      RemoveTail(s, e);
      if e < |s| {
        assert s[e] == '\n' && TailAt(s, e);
      }
    } else if i < |s| {
      RemoveTail(s, i + 1);
    }
  }

  // ----- The deletion of the dots at the end -----

  lemma MatchDots(s: string, i: nat)
    requires i <= |s|
    ensures MatchAt(TRAILING_DOTS, s, i) == if AtEnd(s, RunEnd(s, i, Dot)) then Some(RunEnd(s, i, Dot)) else None
  {
    assert TRAILING_DOTS == [Many(Dot)] + [End] && [End][1..] == [];
    forall m | 0 <= m <= |s| ensures MatchAt([End], s, m) == if AtEnd(s, m) then Some(m) else None {
    }
    if AtEnd(s, RunEnd(s, i, Dot)) {
      ManyTakesRun(Dot, [End], s, i);
    } else {
      ManyFails(Dot, [End], s, i);
    }
  }

  lemma RemoveDotsStep(s: string, i: nat)
    requires i <= |s|
    ensures var e := RunEnd(s, i, Dot);
      RemoveFrom(TRAILING_DOTS, s, i) ==
        if e > i && AtEnd(s, e) then RemoveFrom(TRAILING_DOTS, s, e)
        else if i < |s| then [s[i]] + RemoveFrom(TRAILING_DOTS, s, i + 1)
        else ""
  {
    MatchDots(s, i);
    hide MatchAt;
  }

  lemma {:induction false} RemoveDots(s: string, i: nat)
    requires i <= |s| && forall x :: 0 <= x < |s| ==> In(s[x], DigitOrDot)
    ensures RemoveFrom(TRAILING_DOTS, s, i) == if i <= |TrimEnd(s)| then s[i..|TrimEnd(s)|] else ""
    decreases |s| - i
  {
    RemoveDotsStep(s, i);
    DotsFrom(s, i);
    hide RemoveFrom, TrimEnd, RunEnd, In;
    if i == |s| {
    } else if i < |TrimEnd(s)| {
      RemoveDots(s, i + 1);
    } else {
      RemoveDots(s, |s|);
    }
  }

  lemma DotsFrom(s: string, i: nat)
    requires i <= |s|
    ensures i < |TrimEnd(s)| ==> RunEnd(s, i, Dot) < |TrimEnd(s)|
    ensures i >= |TrimEnd(s)| ==> RunEnd(s, i, Dot) == |s|
  {
    if i < |TrimEnd(s)| {
      assert s[|TrimEnd(s)| - 1] != '.';
    } else {
      RunEndIs(s, i, Dot, |s|);
    }
  }

  // Whatever is not a dot stays.
  lemma {:induction false} DotsOnly(s: string, i: nat, x: nat)
    requires i <= x < |s| && s[x] != '.'
    ensures s[x] in RemoveFrom(TRAILING_DOTS, s, i)
    decreases |s| - i
  {
    MatchDots(s, i);
    var e := RunEnd(s, i, Dot);
    assert e <= x;
    if i == x {
    } else if AtEnd(s, e) && e > i {
      DotsOnly(s, e, x);
    } else {
      DotsOnly(s, i + 1, x);
    }
  }

  // ----- All four -----

  lemma RunEndShift(s: string, a: nat, i: nat, k: Class)
    requires a + i <= |s|
    ensures RunEnd(s[a..], i, k) == RunEnd(s, a + i, k) - a
  {
    RunEndIs(s[a..], i, k, RunEnd(s, a + i, k) - a);
  }

  // After the first deletion, the tail starts where the first run stops, unless line feeds keep
  // the expression from reaching the end from there.
  lemma TailAfterRun(s: string)
    ensures var t := s[Start(s)..];
      var run := Stop(s) - Start(s);
      if TailFits(s) then TailStart(t, 0) == run
      else run < TailStart(t, 0) && In(t[run], Other)
  {
    var a := Start(s);
    var t, run := s[a..], Stop(s) - a;
    assert forall x :: 0 <= x < run ==> t[x] == s[a + x];
    assert TailStart(t, 0) >= run;
    if run < |t| {
      assert t[run] == s[Stop(s)];
      RunEndShift(s, a, run + 1, NotLineFeed);
      assert TailAt(t, run) <==> TailFits(s);
    }
  }

  lemma ThreeLeft(s: string)
    ensures Stripped(s) ==
      var u := s[Start(s)..][..TailStart(s[Start(s)..], 0)];
      RemoveAll(TRAILING_DOTS, u[RunEnd(u, 0, Dot)..])
  {
    var t := s[Start(s)..];
    var u := t[..TailStart(t, 0)];
    RemoveAtStart(Other, s);
    RemoveTail(t, 0);
    RemoveAtStart(Dot, u);
  }

  lemma TrimShape(w: string)
    requires forall x :: 0 <= x < |w| ==> In(w[x], DigitOrDot)
    ensures forall x :: 0 <= x < |Trim(w)| ==> In(Trim(w)[x], DigitOrDot)
    ensures Trim(w) != "" ==> Trim(w)[0] != '.' && Trim(w)[|Trim(w)| - 1] != '.'
  {
  }

  lemma FirstRunShape(s: string)
    ensures forall x :: 0 <= x < |FirstRun(s)| ==> In(FirstRun(s)[x], DigitOrDot)
  {
  }

  lemma StrippedWhenFits(s: string)
    requires TailFits(s)
    ensures Stripped(s) == Trim(FirstRun(s))
  {
    hide Stripped, TailFits, RemoveFrom, RunEnd, TailStart;
    ThreeLeft(s);
    TailAfterRun(s);
    FirstRunShape(s);
    var u := s[Start(s)..][..TailStart(s[Start(s)..], 0)];
    assert u == FirstRun(s);
    RemoveDots(u[RunEnd(u, 0, Dot)..], 0);
  }

  lemma StrippedOtherwise(s: string)
    requires !TailFits(s)
    ensures exists c :: c in Stripped(s) && In(c, Other)
  {
    hide Stripped, TailFits, RemoveFrom, TailStart, TrimEnd;
    var t := s[Start(s)..];
    var run := Stop(s) - Start(s);
    var u := t[..TailStart(t, 0)];
    ThreeLeft(s);
    TailAfterRun(s);
    var d := RunEnd(u, 0, Dot);
    assert d <= run by {
      assert u[run] == t[run] != '.';
    }
    var v := u[d..];
    assert v[run - d] == t[run] != '.';
    DotsOnly(v, 0, run - d);
  }

  lemma OtherIsNeither(w: string)
    requires forall x :: 0 <= x < |w| ==> In(w[x], DigitOrDot)
    ensures forall c :: c in w ==> !In(c, Other)
  {
  }

  // For every string: the deletions leave the first run of digits and dots, trimmed of dots, if
  // and only if the text behind the run has no line feed in the way; otherwise something that is
  // neither digit nor dot remains.
  lemma StrippedIsTrimmedRun(s: string)
    ensures Stripped(s) == Trim(FirstRun(s)) <==> TailFits(s)
    ensures !TailFits(s) ==> exists c :: c in Stripped(s) && In(c, Other)
  {
    FirstRunShape(s);
    TrimShape(FirstRun(s));
    OtherIsNeither(Trim(FirstRun(s)));
    hide *;
    if TailFits(s) {
      StrippedWhenFits(s);
    } else {
      StrippedOtherwise(s);
    }
  }
}
