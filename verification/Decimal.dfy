/** Decimal numerals of natural numbers. */
module Decimal {
  predicate IsDigit(c: char) { '0' <= c <= '9' }

  predicate AllDigits(s: string)
  {
    forall i :: 0 <= i < |s| ==> IsDigit(s[i])
  }

  function Value(s: string): (n: nat)
    requires AllDigits(s)
  {
    if s == "" then 0 else Value(s[..|s| - 1]) * 10 + (s[|s| - 1] as int - '0' as int)
  }

  function Print(n: nat): (s: string)
    ensures s != "" && AllDigits(s)
  {
    if n < 10 then [(n + '0' as int) as char]
    else Print(n / 10) + [(n % 10 + '0' as int) as char]
  }

  lemma {:induction false} ValuePrint(n: nat)
    ensures Value(Print(n)) == n
  {
    if n < 10 {
      var s := Print(n);
      assert s[..0] == "" && Value("") == 0;
      assert |s| == 1;
    } else {
      ValuePrint(n / 10);
      var s := Print(n);
      assert s[..|s| - 1] == Print(n / 10);
    }
  }

  lemma {:induction false} LeadingZero(s: string)
    requires AllDigits(s)
    ensures AllDigits("0" + s) && Value("0" + s) == Value(s)
  {
    var z := "0" + s;
    if s == "" {
      assert z[..0] == "";
    } else {
      LeadingZero(s[..|s| - 1]);
      assert z[..|z| - 1] == "0" + s[..|s| - 1];
    }
  }

  // ----- Positions -----

  function PowerOfTen(k: nat): (n: nat) { if k == 0 then 1 else 10 * PowerOfTen(k - 1) }

  // Each digit counts by its place.
  function Weighted(s: string): (n: nat)
    requires AllDigits(s)
  {
    if s == "" then 0 else (s[0] as int - '0' as int) * PowerOfTen(|s| - 1) + Weighted(s[1..])
  }

  lemma {:induction false} WeightedSnoc(s: string, c: char)
    requires AllDigits(s) && IsDigit(c)
    ensures Weighted(s + [c]) == Weighted(s) * 10 + (c as int - '0' as int)
  {
    var t := s + [c];
    if s == "" {
      assert t[1..] == "" && PowerOfTen(0) == 1;
    } else {
      WeightedSnoc(s[1..], c);
      assert t[1..] == s[1..] + [c];
      TenTimes(s[0] as int - '0' as int, |s|);
    }
  }

  lemma TenTimes(d: nat, k: nat)
    requires k > 0
    ensures d * PowerOfTen(k) == d * PowerOfTen(k - 1) * 10
  {
    var p := PowerOfTen(k - 1);
    assert PowerOfTen(k) == 10 * p && d * (10 * p) == d * p * 10;
  }

  lemma {:induction false} ValueIsWeighted(s: string)
    requires AllDigits(s)
    ensures Value(s) == Weighted(s)
  {
    if s == "" {
    } else {
      var n := |s| - 1;
      ValueIsWeighted(s[..n]);
      WeightedSnoc(s[..n], s[n]);
      assert s == s[..n] + [s[n]];
    }
  }

  lemma {:induction false} NoLeadingZero(n: nat)
    ensures n == 0 ==> Print(n) == "0"
    ensures n > 0 ==> Print(n)[0] != '0'
  {
    if n < 10 {
    } else {
      NoLeadingZero(n / 10);
    }
  }
}
