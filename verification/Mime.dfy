/** A reader of multipart messages, after section 5.1 of RFC 2046 and section 5.1 of RFC 2045.
    It knows nothing of how the program writes them. Lines end with a single line feed. */
module Mime {
  import opened Text

  datatype Field = Field(name: string, body: string)
  datatype Param = Param(name: string, value: string)
  datatype Content = Content(value: string, params: seq<Param>)
  datatype Part = Part(contentType: Content, encoding: string, disposition: Option<Content>, body: string)
  datatype Mail = Mail(subject: string, boundary: string, parts: seq<Part>)

  // ----- Delimiters -----

  // A line that starts with the delimiter is one, whatever follows it on the line.
  predicate IsDelimiter(line: string, boundary: string) { "--" + boundary <= line }

  predicate IsClose(line: string, boundary: string) { "--" + boundary + "--" <= line }

  // The stretches of lines between the delimiter lines.
  function Segments(lines: seq<string>, boundary: string): (segments: seq<seq<string>>)
    ensures |segments| >= 1
  {
    if lines == [] then [[]]
    else
      var rest := Segments(lines[1..], boundary);
      if IsDelimiter(lines[0], boundary) then [[]] + rest
      else [[lines[0]] + rest[0]] + rest[1..]
  }

  function UpToClose(lines: seq<string>, boundary: string): (r: Option<seq<string>>)
  {
    if lines == [] then None
    else if IsClose(lines[0], boundary) then Some([])
    else
      var rest :- UpToClose(lines[1..], boundary);
      Some([lines[0]] + rest)
  }

  // ----- Header fields -----

  function BlankAt(lines: seq<string>): (i: nat)
    ensures i <= |lines|
  {
    if lines == [] || lines[0] == "" then 0 else 1 + BlankAt(lines[1..])
  }

  predicate IsFolded(line: string) { line != "" && (line[0] == ' ' || line[0] == '\t') }

  function Unfold(lines: seq<string>): (unfolded: seq<string>)
    ensures lines != [] ==> unfolded != []
  {
    if lines == [] then []
    else
      var rest := Unfold(lines[1..]);
      if |lines| > 1 && IsFolded(lines[1]) then [lines[0] + rest[0]] + rest[1..]
      else [lines[0]] + rest
  }

  function ParseField(line: string): (r: Option<Field>)
  {
    var i := IndexOf(line, ':');
    if i == |line| then None
    else if i + 1 < |line| && line[i + 1] == ' ' then Some(Field(line[..i], line[i + 2..]))
    else Some(Field(line[..i], line[i + 1..]))
  }

  function ParseFields(lines: seq<string>): (r: Option<seq<Field>>)
  {
    if lines == [] then Some([])
    else
      var field :- ParseField(lines[0]);
      var rest :- ParseFields(lines[1..]);
      Some([field] + rest)
  }

  function Lookup(fields: seq<Field>, name: string): (r: Option<string>)
  {
    if fields == [] then None
    else if fields[0].name == name then Some(fields[0].body)
    else Lookup(fields[1..], name)
  }

  // ----- Field bodies of the form  value; name=token; name="quoted" -----

  // The text up to the closing quote, which has already been opened, and what follows it.
  function ReadQuoted(s: string): (r: Option<(string, string)>)
  {
    if s == "" then None
    else if s[0] == '"' then Some(("", s[1..]))
    else if s[0] == '\\' then
      if |s| < 2 then None
      else
        var (q, rest) :- ReadQuoted(s[2..]);
        Some(([s[1]] + q, rest))
    else
      var (q, rest) :- ReadQuoted(s[1..]);
      Some(([s[0]] + q, rest))
  }

  lemma {:induction false} ReadQuotedShrinks(s: string)
    requires ReadQuoted(s).Some?
    ensures |ReadQuoted(s).value.1| < |s|
  {
    if s[0] == '"' {
    } else if s[0] == '\\' {
      ReadQuotedShrinks(s[2..]);
    } else {
      ReadQuotedShrinks(s[1..]);
    }
  }

  predicate IsSeparator(c: char) { c == ';' || c == ' ' || c == '\t' }

  function ParseParams(s: string): (r: Option<seq<Param>>)
    decreases |s|
  {
    if s == "" then Some([])
    else if IsSeparator(s[0]) then ParseParams(s[1..])
    else
      var i := IndexOf(s, '=');
      if i == |s| then None
      else if i + 1 < |s| && s[i + 1] == '"' then
        var (value, rest) :- ReadQuoted(s[i + 2..]);
        ReadQuotedShrinks(s[i + 2..]);
        var params :- ParseParams(rest);
        Some([Param(s[..i], value)] + params)
      else
        var j := IndexOf(s[i + 1..], ';');
        var params :- ParseParams(s[i + 1..][j..]);
        Some([Param(s[..i], s[i + 1..][..j])] + params)
  }

  function ParseContent(s: string): (r: Option<Content>)
  {
    var i := IndexOf(s, ';');
    var params :- ParseParams(s[i..]);
    Some(Content(s[..i], params))
  }

  function LookupParam(params: seq<Param>, name: string): (r: Option<string>)
  {
    if params == [] then None
    else if params[0].name == name then Some(params[0].value)
    else LookupParam(params[1..], name)
  }

  // ----- Parts and messages -----

  function AfterBlank(lines: seq<string>): (ls: seq<string>)
  {
    var k := BlankAt(lines);
    if k == |lines| then [] else lines[k + 1..]
  }

  function ParsePart(lines: seq<string>): (r: Option<Part>)
  {
    var fields :- ParseFields(Unfold(lines[..BlankAt(lines)]));
    PartOf(fields, Join(AfterBlank(lines), "\n"))
  }

  function PartOf(fields: seq<Field>, body: string): (r: Option<Part>)
  {
    var typeField :- Lookup(fields, "Content-Type");
    var contentType :- ParseContent(typeField);
    var encoding := match Lookup(fields, "Content-Transfer-Encoding") case Some(e) => e case None => "7bit";
    match Lookup(fields, "Content-Disposition")
    case None => Some(Part(contentType, encoding, None, body))
    case Some(d) =>
      var disposition :- ParseContent(d);
      Some(Part(contentType, encoding, Some(disposition), body))
  }

  function ParseParts(segments: seq<seq<string>>): (r: Option<seq<Part>>)
  {
    if segments == [] then Some([])
    else
      var part :- ParsePart(segments[0]);
      var rest :- ParseParts(segments[1..]);
      Some([part] + rest)
  }

  function ParseMail(text: string): (r: Option<Mail>)
  {
    var lines := Lines(text);
    var fields :- ParseFields(Unfold(lines[..BlankAt(lines)]));
    MailOf(fields, AfterBlank(lines))
  }

  function MailOf(fields: seq<Field>, body: seq<string>): (r: Option<Mail>)
  {
    var subject :- Lookup(fields, "Subject");
    var typeField :- Lookup(fields, "Content-Type");
    var contentType :- ParseContent(typeField);
    Multipart(subject, contentType, body)
  }

  // Everything between the header and the first delimiter, and after the closing one, is dropped.
  function Multipart(subject: string, contentType: Content, body: seq<string>): (r: Option<Mail>)
  {
    if contentType.value != "multipart/mixed" then None
    else
      var boundary :- LookupParam(contentType.params, "boundary");
      var inner :- UpToClose(body, boundary);
      var parts :- ParseParts(Segments(inner, boundary)[1..]);
      Some(Mail(subject, boundary, parts))
  }

  // ----- Laws of the reader -----

  ghost predicate Clean(lines: seq<string>, boundary: string)
  {
    forall l :: l in lines ==> !IsDelimiter(l, boundary)
  }

  lemma {:induction false} SegmentsClean(lines: seq<string>, boundary: string)
    ensures forall segment :: segment in Segments(lines, boundary) ==> Clean(segment, boundary)
    ensures forall segment, l :: segment in Segments(lines, boundary) && l in segment ==> l in lines
  {
    if lines == [] {
    } else {
      SegmentsClean(lines[1..], boundary);
      var rest := Segments(lines[1..], boundary);
      assert rest[0] in rest;
    }
  }

  lemma {:induction false} SegmentsOfClean(lines: seq<string>, boundary: string)
    requires Clean(lines, boundary)
    ensures Segments(lines, boundary) == [lines]
  {
    if lines == [] {
    } else {
      assert !IsDelimiter(lines[0], boundary);
      SegmentsOfClean(lines[1..], boundary);
      assert lines == [lines[0]] + lines[1..];
    }
  }

  lemma SegmentsStep(line: string, rest: seq<string>, boundary: string)
    ensures var after := Segments(rest, boundary);
      Segments([line] + rest, boundary) ==
        if IsDelimiter(line, boundary) then [[]] + after else [[line] + after[0]] + after[1..]
  {
    assert ([line] + rest)[1..] == rest;
  }

  // A delimiter line starts a new segment and leaves the earlier ones as they were.
  lemma {:induction false} SegmentsConcat(a: seq<string>, d: string, b: seq<string>, boundary: string)
    requires IsDelimiter(d, boundary)
    ensures Segments(a + [d] + b, boundary) == Segments(a, boundary) + Segments(b, boundary)
  {
    hide *;
    var second := Segments(b, boundary);
    if a == [] {
      assert a + [d] + b == [d] + b;
      SegmentsStep(d, b, boundary);
      SegmentsNone(boundary);
    } else {
      var first := Segments(a[1..], boundary);
      SegmentsConcat(a[1..], d, b, boundary);
      assert a == [a[0]] + a[1..];
      assert a + [d] + b == [a[0]] + (a[1..] + [d] + b);
      SegmentsStep(a[0], a[1..], boundary);
      SegmentsStep(a[0], a[1..] + [d] + b, boundary);
      HeadAndTail(first, second, a[0]);
    }
  }

  lemma HeadAndTail(first: seq<seq<string>>, second: seq<seq<string>>, line: string)
    requires |first| >= 1
    ensures [[line] + (first + second)[0]] + (first + second)[1..] == [[line] + first[0]] + first[1..] + second
    ensures [[]] + (first + second) == [[]] + first + second
  {
    assert (first + second)[1..] == first[1..] + second;
  }

  lemma SegmentsNone(boundary: string)
    ensures Segments([], boundary) == [[]]
  {
  }

  // Lines ended by a closing delimiter are read up to it, or up to an earlier one among them.
  lemma {:induction false} UpToCloseFirst(a: seq<string>, d: string, b: seq<string>, boundary: string)
    requires IsClose(d, boundary)
    ensures UpToClose(a + [d] + b, boundary) ==
      if UpToClose(a, boundary).Some? then UpToClose(a, boundary) else Some(a)
  {
    hide IsClose;
    if a == [] {
      assert (a + [d] + b)[0] == d;
    } else {
      UpToCloseFirst(a[1..], d, b, boundary);
      assert (a + [d] + b)[1..] == a[1..] + [d] + b;
      assert a == [a[0]] + a[1..];
    }
  }

  lemma {:induction false} NeverClosed(lines: seq<string>, boundary: string)
    ensures UpToClose(lines, boundary) == None <==> forall l :: l in lines ==> !IsClose(l, boundary)
  {
    hide IsClose;
    if lines == [] {
    } else {
      NeverClosed(lines[1..], boundary);
      assert lines == [lines[0]] + lines[1..];
    }
  }

  // Lines without a delimiter join the first segment of what follows them.
  lemma {:induction false} SegmentsAfterClean(a: seq<string>, b: seq<string>, boundary: string)
    requires Clean(a, boundary)
    ensures Segments(a + b, boundary) == [a + Segments(b, boundary)[0]] + Segments(b, boundary)[1..]
  {
    var s := Segments(b, boundary);
    if a == [] {
      assert a + b == b && a + s[0] == s[0] && s == [s[0]] + s[1..];
    } else {
      assert a[0] in a && forall l :: l in a[1..] ==> l in a;
      SegmentsAfterClean(a[1..], b, boundary);
      SegmentsStep(a[0], a[1..] + b, boundary);
      assert a + b == [a[0]] + (a[1..] + b) && a == [a[0]] + a[1..];
      assert ([a[1..] + s[0]] + s[1..])[1..] == s[1..];
      assert [a[0]] + (a[1..] + s[0]) == a + s[0];
    }
  }

  lemma {:induction false} BlankFirst(a: seq<string>, b: seq<string>)
    requires "" !in a
    ensures BlankAt(a + [""] + b) == |a|
    ensures AfterBlank(a + [""] + b) == b
  {
    var lines := a + [""] + b;
    if a == [] {
      assert lines[0] == "";
    } else {
      assert lines[0] == a[0] && a[0] in a;
      assert lines[1..] == a[1..] + [""] + b;
      BlankFirst(a[1..], b);
    }
  }

  lemma FieldLine(name: string, body: string)
    requires ':' !in name
    ensures ParseField(name + ": " + body) == Some(Field(name, body))
  {
    var line := name + ": " + body;
    assert line[..|name|] == name && line[|name| + 2..] == body;
    IndexOfAt(line, ':', |name|);
  }

  // What a pair of quotes protects: text free of the two characters special inside them.
  ghost predicate Quotable(s: string) { '"' !in s && '\\' !in s }

  lemma {:induction false} QuotedRead(s: string, rest: string)
    requires Quotable(s)
    ensures ReadQuoted(s + "\"" + rest) == Some((s, rest))
  {
    var t := s + "\"" + rest;
    if s == "" {
      assert t == "\"" + rest;
    } else {
      assert s[0] in s && t[0] == s[0];
      QuotedRead(s[1..], rest);
      assert t[1..] == s[1..] + "\"" + rest && s == [s[0]] + s[1..];
    }
  }

  // Reading never gives more characters than it takes, and as many only if none was special.
  lemma {:induction false} ReadTakes(s: string)
    requires ReadQuoted(s).Some?
    ensures var (q, rest) := ReadQuoted(s).value;
      |q| + 1 + |rest| <= |s| && (|q| + 1 + |rest| == |s| ==> Quotable(q))
  {
    if s[0] == '"' {
    } else if s[0] == '\\' {
      ReadTakes(s[2..]);
    } else {
      ReadTakes(s[1..]);
    }
  }

  // A quoted string reads back as itself exactly when nothing in it needed escaping.
  lemma QuotedExactly(s: string)
    ensures ReadQuoted(s + "\"").Some? && ReadQuoted(s + "\"").value.0 == s <==> Quotable(s)
    ensures Quotable(s) ==> ReadQuoted(s + "\"") == Some((s, ""))
  {
    if Quotable(s) {
      QuotedRead(s, "");
      assert s + "\"" + "" == s + "\"";
    } else if ReadQuoted(s + "\"").Some? {
      ReadTakes(s + "\"");
    }
  }

  lemma SkipSeparators(s: string)
    ensures ParseParams("; " + s) == ParseParams(s)
  {
    assert ("; " + s)[1..] == " " + s && (" " + s)[1..] == s;
  }

  lemma TokenParam(name: string, value: string, rest: string)
    requires name != "" && !IsSeparator(name[0]) && '=' !in name
    requires value != "" && value[0] != '"' && ';' !in value
    requires rest != "" ==> rest[0] == ';'
    ensures ParseParams(rest).Some? ==>
      ParseParams(name + "=" + value + rest) == Some([Param(name, value)] + ParseParams(rest).value)
    ensures ParseParams(rest).None? ==> ParseParams(name + "=" + value + rest).None?
  {
    var s := name + "=" + value + rest;
    assert s[0] == name[0] && s[|name| + 1] == value[0];
    assert s[..|name|] == name && s[|name| + 1..] == value + rest;
    assert (value + rest)[..|value|] == value && (value + rest)[|value|..] == rest;
    hide ParseParams;
    IndexOfAt(s, '=', |name|);
    IndexOfAt(value + rest, ';', |value|);
    hide *;
    TokenStep(s, |name|, |value|);
  }

  lemma TokenStep(s: string, i: nat, j: nat)
    requires i + 1 < |s| && !IsSeparator(s[0]) && IndexOf(s, '=') == i && s[i + 1] != '"'
    requires IndexOf(s[i + 1..], ';') == j
    ensures ParseParams(s) ==
      if ParseParams(s[i + 1..][j..]).None? then None
      else Some([Param(s[..i], s[i + 1..][..j])] + ParseParams(s[i + 1..][j..]).value)
  {
    hide IndexOf;
  }

  lemma QuotedParamStep(name: string, tail: string)
    requires name != "" && !IsSeparator(name[0]) && '=' !in name
    ensures ReadQuoted(tail).None? ==> ParseParams(name + "=\"" + tail).None?
    ensures ReadQuoted(tail).Some? ==>
      var (value, rest) := ReadQuoted(tail).value;
      ParseParams(name + "=\"" + tail) ==
        if ParseParams(rest).None? then None else Some([Param(name, value)] + ParseParams(rest).value)
  {
    var s := name + "=\"" + tail;
    IndexOfAt(s, '=', |name|);
    assert s[..|name|] == name && s[|name| + 2..] == tail && s[|name| + 1] == '"';
  }

  lemma QuotedParam(name: string, value: string)
    requires name != "" && !IsSeparator(name[0]) && '=' !in name
    ensures Quotable(value) ==> ParseParams(name + "=\"" + (value + "\"")) == Some([Param(name, value)])
    ensures ParseParams(name + "=\"" + (value + "\"")).Some? ==>
      var params := ParseParams(name + "=\"" + (value + "\"")).value;
      |params| >= 1 && params[0].name == name && (params[0].value == value ==> Quotable(value))
  {
    NoParams();
    hide *;
    QuotedParamStep(name, value + "\"");
    QuotedExactly(value);
    assert [Param(name, value)] + [] == [Param(name, value)];
  }

  lemma NoParams()
    ensures ParseParams("") == Some([])
  {
  }
}
