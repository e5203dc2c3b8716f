/** The fragment of regular expressions the version normaliser uses, matched the way a backtracking
    engine does: greedy repetition, leftmost match, `$` also before a final line feed. */
module Regex {
  import opened Text

  datatype Class = Digit | Dot | DigitOrDot | Other | NotLineFeed

  predicate In(c: char, k: Class)
  {
    match k
    case Digit => '0' <= c <= '9'
    case Dot => c == '.'
    case DigitOrDot => '0' <= c <= '9' || c == '.'
    case Other => !('0' <= c <= '9' || c == '.')
    case NotLineFeed => c != '\n'
  }

  datatype Item = Begin | End | One(k: Class) | Many(k: Class)

  predicate AtEnd(s: string, i: nat)
    requires i <= |s|
  {
    i == |s| || (i == |s| - 1 && s[i] == '\n')
  }

  // The end of the match at position `i` that the engine finds first.
  function MatchAt(re: seq<Item>, s: string, i: nat): (r: Option<nat>)
    requires i <= |s|
    ensures r.Some? ==> i <= r.value <= |s|
    decreases |re|, |s| - i
  {
    if re == [] then Some(i)
    else match re[0]
      case Begin => if i == 0 then MatchAt(re[1..], s, i) else None
      case End => if AtEnd(s, i) then MatchAt(re[1..], s, i) else None
      case One(k) => if i < |s| && In(s[i], k) then MatchAt(re[1..], s, i + 1) else None
      case Many(k) =>
        var more := if i < |s| && In(s[i], k) then MatchAt(re, s, i + 1) else None;
        if more.Some? then more else MatchAt(re[1..], s, i)
  }

  // The leftmost match at or after position `i`, as start and end.
  function Search(re: seq<Item>, s: string, i: nat): (r: Option<(nat, nat)>)
    requires i <= |s|
    ensures r.Some? ==> i <= r.value.0 <= r.value.1 <= |s|
    decreases |s| - i
  {
    var m := MatchAt(re, s, i);
    if m.Some? then Some((i, m.value))
    else if i < |s| then Search(re, s, i + 1)
    else None
  }

  // What remains of s[i..] after every match in `s` at or after `i` is cut out. An empty match
  // cuts nothing; it is found only where no other exists, so the engine then moves on by one.
  function RemoveFrom(re: seq<Item>, s: string, i: nat): (text: string)
    requires i <= |s|
    decreases |s| - i
  {
    var m := MatchAt(re, s, i);
    if m.Some? && m.value > i then RemoveFrom(re, s, m.value)
    else if i < |s| then [s[i]] + RemoveFrom(re, s, i + 1)
    else ""
  }

  function RemoveAll(re: seq<Item>, s: string): (text: string) { RemoveFrom(re, s, 0) }

  // ----- The language of an expression, with no engine -----

  ghost predicate AllIn(s: string, i: nat, j: nat, k: Class)
    requires i <= j <= |s|
  {
    forall x :: i <= x < j ==> In(s[x], k)
  }

  ghost predicate Fits(re: seq<Item>, s: string, i: nat, j: nat)
    requires i <= j <= |s|
    decreases |re|
  {
    if re == [] then i == j
    else match re[0]
      case Begin => i == 0 && Fits(re[1..], s, i, j)
      case End => AtEnd(s, i) && Fits(re[1..], s, i, j)
      case One(k) => i < j && In(s[i], k) && Fits(re[1..], s, i + 1, j)
      case Many(k) => exists m :: i <= m <= j && AllIn(s, i, m, k) && Fits(re[1..], s, m, j)
  }

  // The engine finds a match exactly where the language has one.
  lemma {:induction false} MatchIsFit(re: seq<Item>, s: string, i: nat)
    requires i <= |s|
    ensures MatchAt(re, s, i).Some? ==> Fits(re, s, i, MatchAt(re, s, i).value)
    ensures MatchAt(re, s, i).None? ==> forall j :: i <= j <= |s| ==> !Fits(re, s, i, j)
    decreases |re|, |s| - i
  {
    if re == [] {
    } else {
      match re[0]
      case Begin => MatchIsFit(re[1..], s, i);
      case End => MatchIsFit(re[1..], s, i);
      case One(k) =>
        if i < |s| {
          MatchIsFit(re[1..], s, i + 1);
        }
      case Many(k) =>
        MatchIsFit(re[1..], s, i);
        if i < |s| && In(s[i], k) {
          MatchIsFit(re, s, i + 1);
          ManyLonger(re, k, s, i);
        } else {
          ManyStuck(re, k, s, i);
        }
    }
  }

  lemma ManyStuck(re: seq<Item>, k: Class, s: string, i: nat)
    requires re != [] && re[0] == Many(k) && i <= |s| && !(i < |s| && In(s[i], k))
    ensures forall j :: i <= j <= |s| ==> (Fits(re, s, i, j) <==> Fits(re[1..], s, i, j))
  {
    assert AllIn(s, i, i, k);
    forall m | i <= m <= |s| && AllIn(s, i, m, k) ensures m == i {
    }
  }

  lemma ManyWitness(re: seq<Item>, k: Class, s: string, i: nat, j: nat) returns (m: nat)
    requires re != [] && re[0] == Many(k) && i <= j <= |s| && Fits(re, s, i, j)
    ensures i <= m <= j && AllIn(s, i, m, k) && Fits(re[1..], s, m, j)
  {
    m :| i <= m <= j && AllIn(s, i, m, k) && Fits(re[1..], s, m, j);
  }

  lemma ManyLonger(re: seq<Item>, k: Class, s: string, i: nat)
    requires re != [] && re[0] == Many(k) && i < |s| && In(s[i], k)
    ensures forall j :: i < j <= |s| && Fits(re, s, i + 1, j) ==> Fits(re, s, i, j)
    ensures forall j :: i <= j <= |s| && Fits(re[1..], s, i, j) ==> Fits(re, s, i, j)
    ensures forall j :: i <= j <= |s| && Fits(re, s, i, j) ==>
      Fits(re[1..], s, i, j) || (i < j && Fits(re, s, i + 1, j))
  {
    forall j | i < j <= |s| && Fits(re, s, i + 1, j) ensures Fits(re, s, i, j) {
      var m := ManyWitness(re, k, s, i + 1, j);
      assert AllIn(s, i, m, k);
    }
    forall j | i <= j <= |s| && Fits(re[1..], s, i, j) ensures Fits(re, s, i, j) {
      assert AllIn(s, i, i, k);
    }
    forall j | i <= j <= |s| && Fits(re, s, i, j)
      ensures Fits(re[1..], s, i, j) || (i < j && Fits(re, s, i + 1, j))
    {
      var m := ManyWitness(re, k, s, i, j);
      if m > i {
        assert AllIn(s, i + 1, m, k);
      }
    }
  }

  // ----- Runs -----

  // Where the run of characters in class `k` that starts at `i` ends.
  function RunEnd(s: string, i: nat, k: Class): (e: nat)
    requires i <= |s|
    ensures i <= e <= |s|
    ensures forall x :: i <= x < e ==> In(s[x], k)
    ensures e < |s| ==> !In(s[e], k)
    decreases |s| - i
  {
    if i < |s| && In(s[i], k) then RunEnd(s, i + 1, k) else i
  }

  lemma RunEndIs(s: string, i: nat, k: Class, e: nat)
    requires i <= e <= |s| && (forall x :: i <= x < e ==> In(s[x], k)) && (e < |s| ==> !In(s[e], k))
    ensures RunEnd(s, i, k) == e
  {
  }

  // Greedy repetition takes the whole run when the rest can follow it.
  lemma {:induction false} ManyTakesRun(k: Class, rest: seq<Item>, s: string, i: nat)
    requires i <= |s|
    requires MatchAt(rest, s, RunEnd(s, i, k)).Some?
    ensures MatchAt([Many(k)] + rest, s, i) == MatchAt(rest, s, RunEnd(s, i, k))
    decreases |s| - i
  {
    assert ([Many(k)] + rest)[1..] == rest;
    if i == |s| || !In(s[i], k) {
    } else {
      ManyTakesRun(k, rest, s, i + 1);
    }
  }

  // It fails when the rest can follow no part of the run.
  lemma {:induction false} ManyFails(k: Class, rest: seq<Item>, s: string, i: nat)
    requires i <= |s|
    requires forall m :: i <= m <= RunEnd(s, i, k) ==> MatchAt(rest, s, m).None?
    ensures MatchAt([Many(k)] + rest, s, i).None?
    decreases |s| - i
  {
    assert ([Many(k)] + rest)[1..] == rest;
    if i == |s| || !In(s[i], k) {
    } else {
      ManyFails(k, rest, s, i + 1);
    }
  }
}
