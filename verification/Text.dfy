/** Strings of characters: separators, pieces and lines. */
module Text {

  datatype Option<+T> = None | Some(value: T) {
    predicate IsFailure() { None? }
    function PropagateFailure<U>(): (r: Option<U>) requires None? { None }
    function Extract(): (r: T) requires Some? { value }
  }

  // The position of the first `c` in `s`, or |s| when there is none.
  function IndexOf(s: string, c: char): (i: nat)
    ensures i <= |s|
    ensures c !in s[..i]
    ensures i < |s| ==> s[i] == c
  {
    if s == "" || s[0] == c then 0 else 1 + IndexOf(s[1..], c)
  }

  // The pieces of `s` between the separators; a string without separators is its only piece.
  function Split(s: string, sep: char): (pieces: seq<string>)
    ensures |pieces| >= 1
    ensures forall p :: p in pieces ==> sep !in p
    decreases |s|
  {
    var i := IndexOf(s, sep);
    if i == |s| then assert s[..i] == s; [s] else [s[..i]] + Split(s[i + 1..], sep)
  }

  function Join(pieces: seq<string>, sep: string): (text: string)
  {
    if |pieces| == 0 then ""
    else if |pieces| == 1 then pieces[0]
    else pieces[0] + sep + Join(pieces[1..], sep)
  }

  // Every line followed by a line break.
  function Unlines(lines: seq<string>): (text: string)
  {
    if lines == [] then "" else lines[0] + "\n" + Unlines(lines[1..])
  }

  function Lines(s: string): (lines: seq<string>)
    ensures |lines| >= 1
    ensures forall p :: p in lines ==> '\n' !in p
  {
    Split(s, '\n')
  }

  ghost predicate OneLine(s: string) { '\n' !in s }

  lemma IndexOfAt(s: string, c: char, i: nat)
    requires i <= |s| && c !in s[..i] && (i < |s| ==> s[i] == c)
    ensures IndexOf(s, c) == i
  {
  }

  lemma SplitWhole(s: string, sep: char)
    requires sep !in s
    ensures Split(s, sep) == [s]
  {
    assert s[..|s|] == s;
    IndexOfAt(s, sep, |s|);
  }

  lemma SplitFirst(p: string, sep: char, rest: string)
    requires sep !in p
    ensures Split(p + [sep] + rest, sep) == [p] + Split(rest, sep)
  {
    var s := p + [sep] + rest;
    assert s[..|p|] == p && s[|p| + 1..] == rest;
    IndexOfAt(s, sep, |p|);
  }

  // Splitting distributes over a separator, whatever stands on its two sides.
  lemma {:induction false} SplitConcat(a: string, sep: char, b: string)
    ensures Split(a + [sep] + b, sep) == Split(a, sep) + Split(b, sep)
    decreases |a|
  {
    hide *;
    var i := IndexOf(a, sep);
    if i == |a| {
      assert a[..i] == a;
      SplitWhole(a, sep);
      SplitFirst(a, sep, b);
    } else {
      var p, q := a[..i], a[i + 1..];
      assert a == p + [sep] + q;
      assert a + [sep] + b == p + [sep] + (q + [sep] + b);
      SplitFirst(p, sep, q);
      SplitFirst(p, sep, q + [sep] + b);
      SplitConcat(q, sep, b);
    }
  }

  // Splitting is lossless, and exact on separator-free pieces.
  lemma {:induction false} JoinSplit(s: string, sep: char)
    ensures Join(Split(s, sep), [sep]) == s
    decreases |s|
  {
    hide *;
    var i := IndexOf(s, sep);
    if i < |s| {
      JoinSplit(s[i + 1..], sep);
      SplitFirst(s[..i], sep, s[i + 1..]);
      assert s == s[..i] + [sep] + s[i + 1..];
      JoinFirst(s[..i], Split(s[i + 1..], sep), [sep]);
    } else {
      assert s[..i] == s;
      SplitWhole(s, sep);
      JoinOne(s, [sep]);
    }
  }

  lemma JoinOne(piece: string, sep: string)
    ensures Join([piece], sep) == piece
  {
  }

  lemma JoinFirst(piece: string, rest: seq<string>, sep: string)
    requires rest != []
    ensures Join([piece] + rest, sep) == piece + sep + Join(rest, sep)
  {
    assert ([piece] + rest)[1..] == rest;
  }

  lemma {:induction false} SplitJoin(pieces: seq<string>, sep: char)
    requires |pieces| >= 1
    requires forall p :: p in pieces ==> sep !in p
    ensures Split(Join(pieces, [sep]), sep) == pieces
  {
    if |pieces| == 1 {
      SplitWhole(pieces[0], sep);
    } else {
      SplitFirst(pieces[0], sep, Join(pieces[1..], [sep]));
      SplitJoin(pieces[1..], sep);
    }
  }

  lemma {:induction false} LinesOfUnlines(lines: seq<string>)
    requires forall l :: l in lines ==> OneLine(l)
    ensures Lines(Unlines(lines)) == lines + [""]
  {
    if lines == [] {
      SplitWhole("", '\n');
    } else {
      assert OneLine(lines[0]);
      SplitFirst(lines[0], '\n', Unlines(lines[1..]));
      LinesOfUnlines(lines[1..]);
    }
  }

  lemma {:induction false} UnlinesConcat(a: seq<string>, b: seq<string>)
    ensures Unlines(a + b) == Unlines(a) + Unlines(b)
  {
    if a == [] {
      assert a + b == b;
    } else {
      assert (a + b)[1..] == a[1..] + b;
      UnlinesConcat(a[1..], b);
    }
  }

  lemma UnlinesSnoc(lines: seq<string>, l: string)
    ensures Unlines(lines + [l]) == Unlines(lines) + (l + "\n")
  {
    UnlinesConcat(lines, [l]);
    assert Unlines([l]) == l + "\n" + Unlines([l][1..]);
  }

  // `s` without any `c`.
  function Without(s: string, c: char): (r: string)
    ensures c !in r
  {
    if s == "" then "" else if s[0] == c then Without(s[1..], c) else [s[0]] + Without(s[1..], c)
  }

  lemma {:induction false} WithoutConcat(a: string, b: string, c: char)
    ensures Without(a + b, c) == Without(a, c) + Without(b, c)
  {
    if a == "" {
      assert a + b == b;
    } else {
      assert (a + b)[1..] == a[1..] + b;
      WithoutConcat(a[1..], b, c);
    }
  }

  lemma {:induction false} WithoutNothing(s: string, c: char)
    requires c !in s
    ensures Without(s, c) == s
  {
    if s == "" {
    } else {
      WithoutNothing(s[1..], c);
    }
  }
}
