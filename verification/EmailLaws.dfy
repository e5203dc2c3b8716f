/** What a reader of multipart messages finds in the messages the writer composes. */
module EmailLaws {
  import opened Text
  import opened Base64
  import opened Mime
  import opened Email
  import opened EmailHeaders

  datatype Attachment = Attachment(name: string, base64: string)

  // The texts taken from the surroundings fit on a line, and type names hold no parameters.
  ghost predicate Sane(setting: Setting)
  {
    OneLine(setting.createdUsing) && OneLine(setting.version) &&
    forall data :: OneLine(setting.mimeTypeForData(data)) && ';' !in setting.mimeTypeForData(data)
  }

  ghost predicate IsPayload(s: string)
  {
    forall c :: c in s ==> InAlphabet(c) || c == '='
  }

  ghost predicate Writable(attachments: seq<Attachment>)
  {
    forall a :: a in attachments ==> OneLine(a.name) && IsPayload(a.base64)
  }

  // The buffer after creation and one call for each attachment, and after finishing.
  function OpenText(subject: string, boundary: string, setting: Setting, attachments: seq<Attachment>): (text: string)
  {
    if attachments == [] then Unlines(OpeningLines(subject, boundary, setting))
    else
      var n := |attachments| - 1;
      OpenText(subject, boundary, setting, attachments[..n]) +
      AttachmentText(attachments[n].name, attachments[n].base64, boundary, setting)
  }

  function MessageText(subject: string, boundary: string, setting: Setting, attachments: seq<Attachment>):
    (text: string)
  {
    OpenText(subject, boundary, setting, attachments) + ClosingText(boundary)
  }

  // ----- The wrap loop -----

  // The chunks of any payload: how many there are and how long they and their lines are.
  lemma {:induction false} ChunksLaw(payload: string)
    ensures |Chunks(payload)| == (|payload| + 59) / 60
    ensures |Unlines(Chunks(payload))| == |payload| + (|payload| + 59) / 60
    ensures forall i :: 0 <= i < |Chunks(payload)| - 1 ==> |Chunks(payload)[i]| == 60
    ensures payload != "" ==> 1 <= |Chunks(payload)[|Chunks(payload)| - 1]| <= 60
    decreases |payload|
  {
    if payload == "" {
    } else if |payload| <= 60 {
      assert Unlines([payload]) == payload + "\n";
    } else {
      ChunksLaw(payload[60..]);
      assert Chunks(payload)[1..] == Chunks(payload[60..]);
    }
  }

  // Nothing is lost: the chunks put together are the payload, and their lines add line breaks only.
  lemma {:induction false} ChunksLossless(payload: string)
    ensures Join(Chunks(payload), "") == payload
    ensures Without(Unlines(Chunks(payload)), '\n') == Without(payload, '\n')
    ensures forall c :: c in Chunks(payload) ==> c != "" && forall x :: x in c ==> x in payload
    decreases |payload|
  {
    hide Without;
    if payload == "" {
    } else if |payload| <= 60 {
      WithoutBreak(payload, "");
      assert Unlines([payload]) == payload + "\n";
    } else {
      var a, b := payload[..60], payload[60..];
      ChunksLossless(b);
      assert Chunks(payload)[1..] == Chunks(b);
      WithoutBreak(a, Unlines(Chunks(b)));
      WithoutConcat(a, b, '\n');
      assert payload == a + b && a + "" + b == payload;
    }
  }

  lemma WithoutBreak(a: string, b: string)
    ensures Without(a + "\n" + b, '\n') == Without(a, '\n') + Without(b, '\n')
    ensures Without(a + "\n", '\n') == Without(a, '\n')
  {
    assert Without("\n", '\n') == "";
    WithoutConcat(a, "\n", '\n');
    WithoutConcat(a + "\n", b, '\n');
  }

  // What the loop and the line break after it append for any payload: a line break before every
  // sixtieth character and one at the end, so an empty payload still leaves the empty line that
  // ends the header. Without line breaks it is the payload, and it decodes to the same bytes.
  lemma WrapLaw(payload: string)
    ensures Emitted(payload) + "\n" == "\n" + Unlines(Chunks(payload))
    ensures |Emitted(payload) + "\n"| == |payload| + (|payload| + 59) / 60 + 1
    ensures Without(Emitted(payload) + "\n", '\n') == Without(payload, '\n')
    ensures OneLine(payload) ==> Without(payload, '\n') == payload
    ensures Decode(Emitted(payload) + "\n") == Decode(payload)
  {
    EmittedIsWrapped(payload);
    assert ([""] + Chunks(payload))[1..] == Chunks(payload);
    ChunksLaw(payload);
    ChunksLossless(payload);
    WithoutConcat("\n", Unlines(Chunks(payload)), '\n');
    assert Without("\n", '\n') == "";
    DecodeIgnoresLineBreaks(Emitted(payload) + "\n", 0, 0);
    DecodeIgnoresLineBreaks(payload, 0, 0);
    if OneLine(payload) {
      WithoutNothing(payload, '\n');
    }
  }

  // ----- Single lines -----

  // A line that does not start with a dash is no delimiter.
  lemma NoDash(line: string, boundary: string)
    requires line == "" || line[0] != '-'
    ensures !IsDelimiter(line, boundary)
  {
    assert ("--" + boundary)[0] == '-';
  }

  // The boundaries for which the signature mark is not taken for a delimiter.
  predicate Safe(boundary: string) { boundary != "" && boundary != " " }

  lemma SignatureLine(boundary: string)
    ensures IsDelimiter(SIGNATURE, boundary) <==> !Safe(boundary)
    ensures !IsClose(SIGNATURE, boundary)
  {
    var d := "--" + boundary;
    if d <= SIGNATURE {
      if |boundary| == 1 {
        assert boundary[0] == d[2] == SIGNATURE[2];
        assert boundary == " ";
      }
    }
    if boundary == " " {
      assert d == SIGNATURE;
    }
  }

  lemma OpeningLine(boundary: string)
    ensures IsDelimiter("--" + boundary, boundary) && !IsClose("--" + boundary, boundary)
    ensures IsDelimiter("--" + boundary + "--", boundary) && IsClose("--" + boundary + "--", boundary)
  {
  }

  lemma CloseIsDelimiter(line: string, boundary: string)
    requires IsClose(line, boundary)
    ensures IsDelimiter(line, boundary)
  {
    var d := "--" + boundary;
    assert d <= d + "--";
  }

  lemma FixedLines()
    ensures OneLine(SUBJECT) && OneLine(MIME_VERSION) && OneLine(MULTIPART) && OneLine(BOUNDARY_PARAM)
    ensures OneLine(PLAIN_TEXT) && OneLine(ENCODING_8BIT) && OneLine(SIGNATURE) && OneLine(URL_LINE)
    ensures OneLine(CONTENT_TYPE) && OneLine(CHARSET) && OneLine(NAME_PARAM) && OneLine(ENCODING_BASE64)
    ensures OneLine(ATTACHMENT) && OneLine(FILENAME_PARAM)
  {
    FixedLines1();
    FixedLines2();
    FixedLines3();
    FixedLines4();
    FixedLines5();
    hide *;
  }

  lemma FixedLines1()
    ensures OneLine(SUBJECT) && OneLine(MIME_VERSION) && OneLine(MULTIPART) && OneLine(BOUNDARY_PARAM)
  {
  }

  lemma FixedLines2()
    ensures OneLine(PLAIN_TEXT) && OneLine(ENCODING_8BIT)
  {
  }

  lemma FixedLines5()
    ensures OneLine(SIGNATURE) && OneLine(URL_LINE)
  {
  }

  lemma FixedLines3()
    ensures OneLine(CONTENT_TYPE) && OneLine(CHARSET) && OneLine(NAME_PARAM)
  {
  }

  lemma FixedLines4()
    ensures OneLine(ENCODING_BASE64) && OneLine(ATTACHMENT) && OneLine(FILENAME_PARAM)
  {
  }

  lemma TextLinesFit(setting: Setting)
    requires Sane(setting)
    ensures forall l :: l in TextLines(setting) ==> OneLine(l)
  {
    FixedLines();
  }

  lemma HeaderLinesFit(subject: string, boundary: string)
    requires OneLine(subject) && OneLine(boundary)
    ensures forall l :: l in HeaderLines(subject, boundary) ==> OneLine(l) && l != ""
  {
    FixedLines();
  }

  lemma AttachmentHeaderFits(name: string, mimeType: string)
    requires OneLine(name) && OneLine(mimeType)
    ensures forall l :: l in AttachmentHeaderLines(name, mimeType) ==> OneLine(l) && l != "" && l[0] != '-'
  {
    FixedLines();
  }

  lemma AttachmentLinesFit(name: string, base64: string, setting: Setting)
    requires Sane(setting) && OneLine(name) && IsPayload(base64)
    ensures forall l :: l in AttachmentLines(name, base64, setting) ==> OneLine(l) && (l == "" || l[0] != '-')
  {
    AttachmentHeaderFits(name, setting.mimeTypeForData(Decode(base64)));
    ChunksLossless(base64);
    forall l | l in Chunks(base64) ensures l != "" && l[0] != '-' {
      assert l[0] in l;
    }
  }

  // No line of an attachment, header or body, can be taken for a delimiter.
  lemma AttachmentClean(name: string, base64: string, boundary: string, setting: Setting)
    requires Sane(setting) && OneLine(name) && IsPayload(base64)
    ensures Clean(AttachmentLines(name, base64, setting) + [""], boundary)
  {
    AttachmentLinesFit(name, base64, setting);
    forall l | l in AttachmentLines(name, base64, setting) + [""] ensures !IsDelimiter(l, boundary) {
      NoDash(l, boundary);
    }
  }

  // The lines of the fixed part: only the signature mark can be taken for a delimiter.
  lemma TextClean(boundary: string, setting: Setting)
    ensures forall l :: l in TextLines(setting) + [""] && l != SIGNATURE ==> !IsDelimiter(l, boundary)
    ensures Safe(boundary) ==> Clean(TextLines(setting) + [""], boundary)
  {
    SignatureLine(boundary);
    forall l | l in TextLines(setting) + [""] && l != SIGNATURE ensures !IsDelimiter(l, boundary) {
      NoDash(l, boundary);
    }
  }

  // ----- One step, from any buffer -----

  lemma LinesAppend(text: string, lines: seq<string>)
    requires forall l :: l in lines ==> OneLine(l)
    ensures Lines(text + ("\n" + Unlines(lines))) == Lines(text) + (lines + [""])
  {
    hide Split, Unlines, OneLine;
    var more := Unlines(lines);
    LinesOfUnlines(lines);
    SplitConcat(text, '\n', more);
    assert text + ("\n" + more) == text + ['\n'] + more;
  }

  // Whatever the buffer holds, adding an attachment adds one delimiter line and then its lines.
  lemma AttachmentAppends(text: string, name: string, base64: string, boundary: string, setting: Setting)
    requires Sane(setting) && OneLine(name) && OneLine(boundary) && IsPayload(base64)
    ensures Lines(text + AttachmentText(name, base64, boundary, setting)) ==
      Lines(text) + ["--" + boundary] + (AttachmentLines(name, base64, setting) + [""])
  {
    AttachmentLinesFit(name, base64, setting);
    hide AttachmentLines, Lines, Unlines;
    var own := AttachmentLines(name, base64, setting);
    LinesAppend(text, ["--" + boundary] + own);
    assert Lines(text) + (["--" + boundary] + own + [""]) == Lines(text) + ["--" + boundary] + (own + [""]);
  }

  lemma ClosingAppends(text: string, boundary: string)
    requires OneLine(boundary)
    ensures Lines(text + ClosingText(boundary)) == Lines(text) + ["--" + boundary + "--"] + [""]
  {
    var line := "--" + boundary + "--";
    LinesAppend(text, [line]);
    ClosingIsLine(boundary);
    hide *;
    assert Lines(text) + ([line] + [""]) == Lines(text) + [line] + [""];
  }

  lemma ClosingIsLine(boundary: string)
    ensures ClosingText(boundary) == "\n" + Unlines(["--" + boundary + "--"])
  {
    var line := "--" + boundary + "--";
    assert Unlines([line]) == line + "\n";
  }

  // Each step of the composer, seen by a reader, from any buffer: an attachment becomes one more
  // part after the parts that were there, which stay as they were; the end line closes the last.
  lemma AddStep(text: string, name: string, base64: string, boundary: string, setting: Setting)
    requires Sane(setting) && OneLine(name) && OneLine(boundary) && IsPayload(base64)
    ensures Segments(Lines(text + AttachmentText(name, base64, boundary, setting)), boundary) ==
      Segments(Lines(text), boundary) + [AttachmentLines(name, base64, setting) + [""]]
  {
    var lines := AttachmentLines(name, base64, setting) + [""];
    AttachmentAppends(text, name, base64, boundary, setting);
    AttachmentClean(name, base64, boundary, setting);
    hide *;
    OpeningLine(boundary);
    SegmentsConcat(Lines(text), "--" + boundary, lines, boundary);
    SegmentsOfClean(lines, boundary);
  }

  // Finishing any buffer closes it: a reader gets all its lines, unless they were closed before.
  lemma FinishStep(text: string, boundary: string)
    requires OneLine(boundary)
    ensures UpToClose(Lines(text + ClosingText(boundary)), boundary) ==
      if UpToClose(Lines(text), boundary).Some? then UpToClose(Lines(text), boundary) else Some(Lines(text))
  {
    ClosingAppends(text, boundary);
    OpeningLine(boundary);
    hide *;
    UpToCloseFirst(Lines(text), "--" + boundary + "--", [""], boundary);
  }

  // ----- The whole message, line by line -----

  // The lines of the parts, the fixed one first.
  function PartLines(setting: Setting, attachments: seq<Attachment>): (segments: seq<seq<string>>)
  {
    if attachments == [] then [TextLines(setting) + [""]]
    else
      var n := |attachments| - 1;
      PartLines(setting, attachments[..n]) +
      [AttachmentLines(attachments[n].name, attachments[n].base64, setting) + [""]]
  }

  // The lines after the header and the empty line that ends it.
  function InnerLines(boundary: string, setting: Setting, attachments: seq<Attachment>): (lines: seq<string>)
  {
    if attachments == [] then ["--" + boundary] + (TextLines(setting) + [""])
    else
      var n := |attachments| - 1;
      InnerLines(boundary, setting, attachments[..n]) + ["--" + boundary] +
      (AttachmentLines(attachments[n].name, attachments[n].base64, setting) + [""])
  }

  lemma OpeningTextLines(subject: string, boundary: string, setting: Setting)
    requires Sane(setting) && OneLine(subject) && OneLine(boundary)
    ensures Lines(Unlines(OpeningLines(subject, boundary, setting))) ==
      HeaderLines(subject, boundary) + [""] + InnerLines(boundary, setting, [])
  {
    TextLinesFit(setting);
    HeaderLinesFit(subject, boundary);
    var lines := OpeningLines(subject, boundary, setting);
    hide TextLines, HeaderLines, Lines, Unlines;
    assert forall l :: l in lines ==> OneLine(l);
    LinesOfUnlines(lines);
    assert lines + [""] == HeaderLines(subject, boundary) + [""] + (["--" + boundary] + (TextLines(setting) + [""]));
  }

  lemma {:induction false} OpenTextLines(subject: string, boundary: string, setting: Setting,
      attachments: seq<Attachment>)
    requires Sane(setting) && OneLine(subject) && OneLine(boundary) && Writable(attachments)
    ensures Lines(OpenText(subject, boundary, setting, attachments)) ==
      HeaderLines(subject, boundary) + [""] + InnerLines(boundary, setting, attachments)
  {
    if attachments == [] {
      OpeningTextLines(subject, boundary, setting);
    } else {
      var n := |attachments| - 1;
      var a := attachments[n];
      assert a in attachments;
      OpenTextLines(subject, boundary, setting, attachments[..n]);
      AttachmentAppends(OpenText(subject, boundary, setting, attachments[..n]), a.name, a.base64, boundary, setting);
      hide HeaderLines, AttachmentLines, AttachmentText, Lines;
      var inner := InnerLines(boundary, setting, attachments[..n]);
      Grouped(HeaderLines(subject, boundary) + [""], inner, ["--" + boundary],
              AttachmentLines(a.name, a.base64, setting) + [""]);
    }
  }

  lemma Grouped(a: seq<string>, b: seq<string>, c: seq<string>, d: seq<string>)
    ensures a + b + c + d == a + (b + c + d)
  {
  }

  // ----- The parts -----

  function TextPart(setting: Setting): (part: Part)
  {
    Part(Content("text/plain", [UTF8_PARAM]), "8bit", None, Unlines([SIGNATURE, CreatedLine(setting), URL_LINE]))
  }

  function AttachedPart(a: Attachment, setting: Setting): (part: Part)
  {
    Part(Content(setting.mimeTypeForData(Decode(a.base64)), [UTF8_PARAM, Param("name", a.name)]), "base64",
         Some(Content("attachment", [Param("filename", a.name)])), Unlines(Chunks(a.base64)))
  }

  function ExpectedParts(setting: Setting, attachments: seq<Attachment>): (parts: seq<Part>)
  {
    if attachments == [] then [TextPart(setting)]
    else
      var n := |attachments| - 1;
      ExpectedParts(setting, attachments[..n]) + [AttachedPart(attachments[n], setting)]
  }

  // The line break before a delimiter belongs to the delimiter.
  lemma {:induction false} JoinIsUnlines(lines: seq<string>)
    ensures Join(lines + [""], "\n") == Unlines(lines)
  {
    if lines == [] {
    } else {
      assert (lines + [""])[1..] == lines[1..] + [""];
      JoinIsUnlines(lines[1..]);
    }
  }

  lemma PartReads(header: seq<string>, body: seq<string>, fields: seq<Field>)
    requires "" !in header && ParseFields(Unfold(header)) == Some(fields)
    ensures ParsePart(header + [""] + (body + [""])) == PartOf(fields, Unlines(body))
  {
    hide ParseFields, Unfold, PartOf, BlankAt, AfterBlank;
    var lines := header + [""] + (body + [""]);
    BlankFirst(header, body + [""]);
    assert lines[..|header|] == header;
    JoinIsUnlines(body);
  }

  lemma TextPartReads(setting: Setting)
    ensures ParsePart(TextLines(setting) + [""]) == Some(TextPart(setting))
  {
    hide ParsePart, ParseContent, PartOf, SIGNATURE, URL_LINE, PLAIN_TEXT, ENCODING_8BIT, CreatedLine, Unlines,
      UTF8_PARAM, ENCODING;
    PlainTextReads();
    PlainContent();
    var typeBody := "text/plain" + ("; " + ("charset" + "=" + "UTF-8"));
    var body := [SIGNATURE, CreatedLine(setting), URL_LINE];
    PartReads([PLAIN_TEXT, ENCODING_8BIT], body, [Field("Content-Type", typeBody), Field(ENCODING, "8bit")]);
    PartOfTwo(typeBody, "8bit", Unlines(body));
    assert TextLines(setting) + [""] == [PLAIN_TEXT, ENCODING_8BIT] + [""] + (body + [""]);
  }

  // An attachment reads back as it was given exactly when its name needs no escaping.
  lemma AttachedPartReads(a: Attachment, setting: Setting)
    requires Sane(setting)
    ensures ParsePart(AttachmentLines(a.name, a.base64, setting) + [""]) == Some(AttachedPart(a, setting))
      <==> Quotable(a.name)
  {
    hide ParsePart, ParseContent, PartOf, Chunks, Unlines, UTF8_PARAM, AttachmentHeaderLines, Decode, TypeBody,
      QuotedBody, Quotable, ENCODING;
    var mimeType := setting.mimeTypeForData(Decode(a.base64));
    var typeBody, disposition := TypeBody(mimeType, a.name), QuotedBody("attachment", "filename", a.name);
    var header := AttachmentHeaderLines(a.name, mimeType);
    AttachmentHeaderReads(a.name, mimeType);
    PartReads(header, Chunks(a.base64), [Field("Content-Type", typeBody), Field(ENCODING, "base64"),
      Field("Content-Disposition", disposition)]);
    PartOfThree(typeBody, "base64", disposition, Unlines(Chunks(a.base64)));
    TypeBodyReads(mimeType, a.name);
    FileNameReads(a.name);
    assert AttachmentLines(a.name, a.base64, setting) + [""] == header + [""] + (Chunks(a.base64) + [""]);
  }

  lemma FileNameReads(name: string)
    ensures Quotable(name) ==>
      ParseContent(QuotedBody("attachment", "filename", name)) == Some(Content("attachment", [Param("filename", name)]))
  {
    QuotedBodyReads("attachment", "filename", name);
  }

  // ----- The whole message -----

  lemma {:induction false} ParsePartsSnoc(segments: seq<seq<string>>, last: seq<string>)
    ensures ParseParts(segments + [last]) ==
      if ParseParts(segments).None? || ParsePart(last).None? then None
      else Some(ParseParts(segments).value + [ParsePart(last).value])
  {
    hide ParsePart;
    var all := segments + [last];
    if segments == [] {
      assert all == [last] && [last][1..] == [];
      assert ParseParts([]) == Some([]);
      if ParsePart(last).Some? {
        assert [ParsePart(last).value] + [] == [] + [ParsePart(last).value];
      }
    } else {
      ParsePartsSnoc(segments[1..], last);
      assert all[0] == segments[0] && all[1..] == segments[1..] + [last];
      if ParsePart(segments[0]).Some? && ParseParts(segments[1..]).Some? && ParsePart(last).Some? {
        var p, rest, l := ParsePart(segments[0]).value, ParseParts(segments[1..]).value, ParsePart(last).value;
        assert [p] + (rest + [l]) == [p] + rest + [l];
      }
    }
  }

  ghost predicate AllQuotable(attachments: seq<Attachment>)
  {
    forall a :: a in attachments ==> Quotable(a.name)
  }

  lemma {:induction false} PartsRead(setting: Setting, attachments: seq<Attachment>)
    requires Sane(setting)
    ensures ParseParts(PartLines(setting, attachments)) == Some(ExpectedParts(setting, attachments))
      <==> AllQuotable(attachments)
  {
    hide ParsePart, ParseParts, TextLines, AttachmentLines, TextPart, AttachedPart, Quotable;
    if attachments == [] {
      TextPartReads(setting);
      ParsePartsSnoc([], TextLines(setting) + [""]);
      NoParts();
      assert [] + [TextLines(setting) + [""]] == [TextLines(setting) + [""]];
      assert [] + [TextPart(setting)] == [TextPart(setting)];
    } else {
      var n := |attachments| - 1;
      var a := attachments[n];
      var front := attachments[..n];
      PartsRead(setting, front);
      AttachedPartReads(a, setting);
      ParsePartsSnoc(PartLines(setting, front), AttachmentLines(a.name, a.base64, setting) + [""]);
      assert attachments == front + [a];
      assert AllQuotable(attachments) <==> AllQuotable(front) && Quotable(a.name);
      SnocInjective(ParseParts(PartLines(setting, front)), ParsePart(AttachmentLines(a.name, a.base64, setting) + [""]),
                    ExpectedParts(setting, front), AttachedPart(a, setting));
    }
  }

  lemma NoParts()
    ensures ParseParts([]) == Some([])
  {
  }

  lemma SnocInjective(parts: Option<seq<Part>>, part: Option<Part>, front: seq<Part>, last: Part)
    ensures parts.Some? && part.Some? ==>
      (parts.value + [part.value] == front + [last] <==> parts == Some(front) && part == Some(last))
  {
    if parts.Some? && part.Some? && parts.value + [part.value] == front + [last] {
      var whole := front + [last];
      assert |parts.value| == |front|;
      assert whole[..|front|] == front && (parts.value + [part.value])[..|front|] == parts.value;
      assert whole[|front|] == last && (parts.value + [part.value])[|front|] == part.value;
    }
  }

  // A message is written with no delimiter other than its own, unless the boundary is one of two
  // degenerate ones, for which the signature mark reads as a delimiter too.
  lemma {:induction false} InnerSegments(boundary: string, setting: Setting, attachments: seq<Attachment>)
    requires Sane(setting) && Writable(attachments) && Safe(boundary)
    ensures Segments(InnerLines(boundary, setting, attachments), boundary) == [[]] + PartLines(setting, attachments)
  {
    hide Segments, IsDelimiter, TextLines, AttachmentLines, Safe;
    OpeningLine(boundary);
    if attachments == [] {
      var lines := TextLines(setting) + [""];
      TextClean(boundary, setting);
      SegmentsNone(boundary);
      SegmentsConcat([], "--" + boundary, lines, boundary);
      SegmentsOfClean(lines, boundary);
      assert [] + ["--" + boundary] + lines == ["--" + boundary] + lines;
    } else {
      var n := |attachments| - 1;
      var a := attachments[n];
      assert a in attachments;
      var lines := AttachmentLines(a.name, a.base64, setting) + [""];
      InnerSegments(boundary, setting, attachments[..n]);
      AttachmentClean(a.name, a.base64, boundary, setting);
      SegmentsConcat(InnerLines(boundary, setting, attachments[..n]), "--" + boundary, lines, boundary);
      SegmentsOfClean(lines, boundary);
      var before := PartLines(setting, attachments[..n]);
      assert [[]] + before + [lines] == [[]] + (before + [lines]);
    }
  }

  lemma {:induction false} InnerNeverCloses(boundary: string, setting: Setting, attachments: seq<Attachment>)
    requires Sane(setting) && Writable(attachments)
    ensures forall l :: l in InnerLines(boundary, setting, attachments) ==> !IsClose(l, boundary)
  {
    hide IsDelimiter, IsClose, TextLines, AttachmentLines, SIGNATURE;
    OpeningLine(boundary);
    SignatureLine(boundary);
    forall l | !IsDelimiter(l, boundary) ensures !IsClose(l, boundary) {
      if IsClose(l, boundary) {
        CloseIsDelimiter(l, boundary);
      }
    }
    if attachments == [] {
      TextClean(boundary, setting);
    } else {
      var n := |attachments| - 1;
      var a := attachments[n];
      assert a in attachments;
      InnerNeverCloses(boundary, setting, attachments[..n]);
      AttachmentClean(a.name, a.base64, boundary, setting);
    }
  }

  lemma MessageLines(subject: string, boundary: string, setting: Setting, attachments: seq<Attachment>)
    requires Sane(setting) && OneLine(subject) && OneLine(boundary) && Writable(attachments)
    ensures Lines(MessageText(subject, boundary, setting, attachments)) == HeaderLines(subject, boundary) + [""] +
      (InnerLines(boundary, setting, attachments) + ["--" + boundary + "--"] + [""])
  {
    hide OpenText, ClosingText, HeaderLines, InnerLines, Lines;
    OpenTextLines(subject, boundary, setting, attachments);
    ClosingAppends(OpenText(subject, boundary, setting, attachments), boundary);
    var header, inner := HeaderLines(subject, boundary), InnerLines(boundary, setting, attachments);
    assert header + [""] + inner + ["--" + boundary + "--"] + [""] ==
      header + [""] + (inner + ["--" + boundary + "--"] + [""]);
  }

  function ExpectedMail(subject: string, boundary: string, setting: Setting, attachments: seq<Attachment>): (mail: Mail)
  {
    Mail(subject, boundary, ExpectedParts(setting, attachments))
  }

  // ----- The degenerate boundaries -----

  lemma {:induction false} FirstExpected(setting: Setting, attachments: seq<Attachment>)
    ensures ExpectedParts(setting, attachments) != [] && ExpectedParts(setting, attachments)[0] == TextPart(setting)
  {
    hide TextPart, AttachedPart;
    if attachments == [] {
    } else {
      FirstExpected(setting, attachments[..|attachments| - 1]);
    }
  }

  lemma BodyLines(segment: seq<string>)
    requires forall l :: l in segment ==> OneLine(l)
    requires ParsePart(segment).Some?
    ensures forall l :: l in Lines(ParsePart(segment).value.body) ==> l in segment || l == ""
  {
    var rest := AfterBlank(segment);
    assert forall l :: l in rest ==> l in segment;
    if rest == [] {
      SplitWhole("", '\n');
    } else {
      SplitJoin(rest, '\n');
    }
  }

  lemma SignatureInText(setting: Setting)
    requires Sane(setting)
    ensures SIGNATURE in Lines(TextPart(setting).body)
  {
    TextLinesFit(setting);
    var body := [SIGNATURE, CreatedLine(setting), URL_LINE];
    assert forall l :: l in body ==> l in TextLines(setting);
    hide SIGNATURE, URL_LINE, CreatedLine, Lines, TextLines;
    LinesOfUnlines(body);
    assert (body + [""])[0] == SIGNATURE;
  }

  // No segment holds the signature mark when it reads as a delimiter, so no part is the fixed one.
  lemma UnsafeLosesText(boundary: string, setting: Setting, attachments: seq<Attachment>, inner: seq<string>)
    requires Sane(setting) && !Safe(boundary)
    requires forall l :: l in inner ==> OneLine(l)
    ensures ParseParts(Segments(inner, boundary)[1..]) != Some(ExpectedParts(setting, attachments))
  {
    var segments := Segments(inner, boundary)[1..];
    FirstExpected(setting, attachments);
    if ParseParts(segments) == Some(ExpectedParts(setting, attachments)) {
      SegmentsClean(inner, boundary);
      assert segments[0] in Segments(inner, boundary);
      hide ParsePart, Segments, Lines, Safe, TextPart, SIGNATURE;
      BodyLines(segments[0]);
      SignatureInText(setting);
      SignatureLine(boundary);
      EmptyLine(boundary);
      assert false;
    }
  }

  lemma EmptyLine(boundary: string)
    ensures !IsDelimiter("", boundary)
  {
  }

  // ----- The composer's step invariant -----

  lemma HeaderClean(subject: string, boundary: string)
    ensures Clean(HeaderLines(subject, boundary) + [""], boundary)
  {
    var lines := HeaderLines(subject, boundary) + [""];
    forall l | l in lines ensures !IsDelimiter(l, boundary) {
      NoDash(l, boundary);
    }
  }

  lemma {:induction false} PartLinesCount(setting: Setting, attachments: seq<Attachment>)
    ensures |PartLines(setting, attachments)| == |attachments| + 1
  {
    if attachments == [] {
    } else {
      PartLinesCount(setting, attachments[..|attachments| - 1]);
    }
  }

  // After creation and any number of additions the message is open: no line of it is a closing
  // delimiter. A reader finds the header and then one segment for the fixed part and one for each
  // attachment. Finishing closes it and changes none of its lines.
  lemma OpenMessage(subject: string, boundary: string, setting: Setting, attachments: seq<Attachment>)
    requires Sane(setting) && OneLine(subject) && OneLine(boundary) && Writable(attachments)
    ensures var text := OpenText(subject, boundary, setting, attachments);
      UpToClose(Lines(text), boundary) == None &&
      UpToClose(Lines(text + ClosingText(boundary)), boundary) == Some(Lines(text)) &&
      (Safe(boundary) ==>
        Segments(Lines(text), boundary) == [HeaderLines(subject, boundary) + [""]] + PartLines(setting, attachments) &&
        |PartLines(setting, attachments)| == |attachments| + 1) &&
      (Safe(boundary) <==> |Segments(Lines(text), boundary)| == |attachments| + 2)
  {
    var text, header := OpenText(subject, boundary, setting, attachments), HeaderLines(subject, boundary) + [""];
    OpenTextLines(subject, boundary, setting, attachments);
    HeaderClean(subject, boundary);
    NothingCloses(subject, boundary, setting, attachments);
    FinishStep(text, boundary);
    PartLinesCount(setting, attachments);
    OpenSegmentCount(subject, boundary, setting, attachments);
    if Safe(boundary) {
      InnerSegments(boundary, setting, attachments);
      hide *;
      SegmentsAfterClean(header, InnerLines(boundary, setting, attachments), boundary);
      FirstAndRest(header, PartLines(setting, attachments));
    }
    hide *;
  }

  lemma OpenSegmentCount(subject: string, boundary: string, setting: Setting, attachments: seq<Attachment>)
    requires Sane(setting) && Writable(attachments)
    ensures |Segments(HeaderLines(subject, boundary) + [""] + InnerLines(boundary, setting, attachments), boundary)| ==
      |attachments| + if Safe(boundary) then 2 else 3
  {
    var header, inner := HeaderLines(subject, boundary) + [""], InnerLines(boundary, setting, attachments);
    HeaderHasNoDelimiter(subject, boundary);
    InnerDelimiters(boundary, setting, attachments);
    DelimitersConcat(header, inner, boundary);
    SegmentCount(header + inner, boundary);
    hide HeaderLines, InnerLines, Segments, Delimiters, Times, SIGNATURE;
  }

  lemma {:induction false} SegmentCount(lines: seq<string>, boundary: string)
    ensures |Segments(lines, boundary)| == |Delimiters(lines, boundary)| + 1
  {
    hide IsDelimiter;
    if lines == [] {
    } else {
      SegmentCount(lines[1..], boundary);
    }
  }

  lemma FirstAndRest(header: seq<string>, rest: seq<seq<string>>)
    ensures var all := [[]] + rest; [header + all[0]] + all[1..] == [header] + rest
  {
    assert header + [] == header;
  }

  lemma NothingCloses(subject: string, boundary: string, setting: Setting, attachments: seq<Attachment>)
    requires Sane(setting) && Writable(attachments)
    ensures var lines := HeaderLines(subject, boundary) + [""] + InnerLines(boundary, setting, attachments);
      UpToClose(lines, boundary) == None
  {
    var header := HeaderLines(subject, boundary) + [""];
    HeaderClean(subject, boundary);
    InnerNeverCloses(boundary, setting, attachments);
    forall l | !IsDelimiter(l, boundary) ensures !IsClose(l, boundary) {
      if IsClose(l, boundary) {
        CloseIsDelimiter(l, boundary);
      }
    }
    hide HeaderLines, InnerLines, IsClose, IsDelimiter, UpToClose;
    NeverClosed(header + InnerLines(boundary, setting, attachments), boundary);
  }

  // ----- Main result -----

  lemma MailOfHeader(subject: string, typeBody: string, body: seq<string>)
    ensures MailOf([Field("Subject", subject), Field("MIME-Version", "1.0"), Field("Content-Type", typeBody)], body) ==
      if ParseContent(typeBody).None? then None else Multipart(subject, ParseContent(typeBody).value, body)
  {
    hide Lookup, ParseContent, Multipart;
    DistinctNames();
    var x, y, z := Field("Subject", subject), Field("MIME-Version", "1.0"), Field("Content-Type", typeBody);
    LookupThree(x, y, z, "Subject");
    LookupThree(x, y, z, "Content-Type");
  }

  lemma HeaderFound(subject: string, boundary: string, setting: Setting, attachments: seq<Attachment>)
    requires Sane(setting) && OneLine(subject) && OneLine(boundary) && Writable(attachments)
    ensures var content := ParseContent(QuotedBody("multipart/mixed", "boundary", boundary));
      ParseMail(MessageText(subject, boundary, setting, attachments)) ==
        if content.None? then None
        else Multipart(subject, content.value,
                       InnerLines(boundary, setting, attachments) + ["--" + boundary + "--"] + [""])
  {
    hide MailOf, ParseContent, Multipart, QuotedBody, HeaderLines, ParseFields, Unfold, Lines, BlankAt, AfterBlank,
      InnerLines, MessageText;
    var body := InnerLines(boundary, setting, attachments) + ["--" + boundary + "--"] + [""];
    var header := HeaderLines(subject, boundary);
    MessageLines(subject, boundary, setting, attachments);
    HeaderReads(subject, boundary);
    BlankFirst(header, body);
    assert (header + [""] + body)[..|header|] == header;
    MailOfHeader(subject, QuotedBody("multipart/mixed", "boundary", boundary), body);
  }

  // With its own boundary the reader finds the parts between the delimiters the writer wrote.
  lemma PartsFound(boundary: string, setting: Setting, attachments: seq<Attachment>)
    requires Sane(setting) && OneLine(boundary) && Writable(attachments)
    ensures UpToClose(InnerLines(boundary, setting, attachments) + ["--" + boundary + "--"] + [""], boundary) ==
      Some(InnerLines(boundary, setting, attachments))
    ensures ParseParts(Segments(InnerLines(boundary, setting, attachments), boundary)[1..]) ==
        Some(ExpectedParts(setting, attachments))
      <==> Safe(boundary) && AllQuotable(attachments)
  {
    hide ParseParts, ExpectedParts, Segments, InnerLines, IsClose, Safe, AllQuotable, Lines;
    var inner := InnerLines(boundary, setting, attachments);
    InnerNeverCloses(boundary, setting, attachments);
    OpeningLine(boundary);
    NeverClosed(inner, boundary);
    UpToCloseFirst(inner, "--" + boundary + "--", [""], boundary);
    if Safe(boundary) {
      InnerSegments(boundary, setting, attachments);
      assert ([[]] + PartLines(setting, attachments))[1..] == PartLines(setting, attachments);
      PartsRead(setting, attachments);
    } else {
      MessageLines("", boundary, setting, attachments);
      assert forall l :: l in inner ==> l in Lines(MessageText("", boundary, setting, attachments));
      UnsafeLosesText(boundary, setting, attachments, inner);
    }
  }

  // The reader gets back exactly what the writer was given - the subject, the boundary, the fixed
  // part, and for each attachment its type, its name and its payload, in order - if and only if
  // neither the boundary nor a name holds a quote or a backslash and the boundary is neither empty
  // nor a single space.
  lemma ComposedMailReads(subject: string, boundary: string, setting: Setting, attachments: seq<Attachment>)
    requires Sane(setting) && OneLine(subject) && OneLine(boundary) && Writable(attachments)
    ensures ParseMail(MessageText(subject, boundary, setting, attachments)) ==
        Some(ExpectedMail(subject, boundary, setting, attachments))
      <==> Quotable(boundary) && Safe(boundary) && AllQuotable(attachments)
  {
    var content := ParseContent(QuotedBody("multipart/mixed", "boundary", boundary));
    HeaderFound(subject, boundary, setting, attachments);
    BoundaryReads(boundary);
    PartsFound(boundary, setting, attachments);
    if content.Some? {
      FirstParam(content.value.params, "boundary");
    }
    hide ParseMail, MessageText, ParseContent, QuotedBody, UpToClose, ParseParts, Segments, InnerLines, ExpectedParts,
      Quotable, Safe, AllQuotable, LookupParam;
  }

  // The fixed part a reader finds, word by word.
  lemma FixedPartReads(subject: string, boundary: string, setting: Setting, attachments: seq<Attachment>)
    requires Sane(setting) && OneLine(subject) && OneLine(boundary) && Writable(attachments)
    requires Quotable(boundary) && Safe(boundary) && AllQuotable(attachments)
    ensures var mail := ParseMail(MessageText(subject, boundary, setting, attachments));
      var signature := [
        "-- ", " " + setting.createdUsing + " " + setting.version + ".", " <URL: https://www.datovka.cz/>"];
      mail.Some? && mail.value.parts != [] && mail.value.parts[0] ==
        Part(Content("text/plain", [Param("charset", "UTF-8")]), "8bit", None, Unlines(signature))
  {
    ComposedMailReads(subject, boundary, setting, attachments);
    FirstExpected(setting, attachments);
    TextPartIs(setting);
    hide ParseMail, MessageText, ExpectedParts, Quotable, Safe, AllQuotable, TextPart, Unlines, Sane, Writable;
  }

  lemma TextPartIs(setting: Setting)
    ensures var signature := [
        "-- ", " " + setting.createdUsing + " " + setting.version + ".", " <URL: https://www.datovka.cz/>"];
      TextPart(setting) == Part(Content("text/plain", [Param("charset", "UTF-8")]), "8bit", None, Unlines(signature))
  {
    UrlIs();
    hide Unlines, URL_LINE;
  }

  // A quote in a name is not escaped, so the mail does not read back.
  lemma QuoteInNameIsLost(setting: Setting)
    requires Sane(setting)
    ensures var attachments := [Attachment("a\"b", "")];
      Writable(attachments) &&
      ParseMail(MessageText("", "b", setting, attachments)) != Some(ExpectedMail("", "b", setting, attachments))
  {
    var a := Attachment("a\"b", "");
    QuoteInName();
    assert a in [a];
    hide ParseMail, MessageText, ExpectedMail, Quotable, Sane;
    ComposedMailReads("", "b", setting, [a]);
  }

  lemma QuoteInName()
    ensures OneLine("a\"b") && !Quotable("a\"b") && OneLine("") && OneLine("b")
  {
    assert "a\"b"[1] == '"';
  }

  // With an empty boundary or a single space for one, not even a message without attachments does.
  lemma BoundaryLikeSignature(boundary: string, setting: Setting)
    requires Sane(setting) && boundary in {"", " "}
    ensures ParseMail(MessageText("", boundary, setting, [])) != Some(ExpectedMail("", boundary, setting, []))
  {
    hide ParseMail, MessageText, ExpectedMail, Quotable, Sane;
    ComposedMailReads("", boundary, setting, []);
  }

  lemma BoundaryReads(boundary: string)
    ensures Quotable(boundary) ==>
      ParseContent(QuotedBody("multipart/mixed", "boundary", boundary)) ==
        Some(Content("multipart/mixed", [Param("boundary", boundary)]))
    ensures ParseContent(QuotedBody("multipart/mixed", "boundary", boundary)).Some? ==>
      var content := ParseContent(QuotedBody("multipart/mixed", "boundary", boundary)).value;
      content.value == "multipart/mixed" && |content.params| >= 1 && content.params[0].name == "boundary" &&
      (content.params[0].value == boundary ==> Quotable(boundary))
  {
    QuotedBodyReads("multipart/mixed", "boundary", boundary);
  }

  lemma FirstParam(params: seq<Param>, name: string)
    requires |params| >= 1 && params[0].name == name
    ensures LookupParam(params, name) == Some(params[0].value)
  {
  }

  // ----- Delimiter lines -----

  function Delimiters(lines: seq<string>, boundary: string): (ls: seq<string>)
  {
    if lines == [] then []
    else (if IsDelimiter(lines[0], boundary) then [lines[0]] else []) + Delimiters(lines[1..], boundary)
  }

  lemma {:induction false} DelimitersConcat(a: seq<string>, b: seq<string>, boundary: string)
    ensures Delimiters(a + b, boundary) == Delimiters(a, boundary) + Delimiters(b, boundary)
  {
    if a == [] {
      assert a + b == b;
    } else {
      assert (a + b)[1..] == a[1..] + b;
      DelimitersConcat(a[1..], b, boundary);
    }
  }

  lemma {:induction false} DelimitersOfClean(lines: seq<string>, boundary: string)
    requires Clean(lines, boundary)
    ensures Delimiters(lines, boundary) == []
  {
    if lines == [] {
    } else {
      assert !IsDelimiter(lines[0], boundary);
      DelimitersOfClean(lines[1..], boundary);
    }
  }

  lemma DelimitersOfOne(line: string, boundary: string)
    ensures Delimiters([line], boundary) == if IsDelimiter(line, boundary) then [line] else []
  {
  }

  function Times(line: string, n: nat): (lines: seq<string>)
    ensures |lines| == n && forall l :: l in lines ==> l == line
  {
    if n == 0 then [] else Times(line, n - 1) + [line]
  }

  lemma TextDelimiters(boundary: string, setting: Setting)
    ensures Delimiters(TextLines(setting) + [""], boundary) == if Safe(boundary) then [] else [SIGNATURE]
  {
    var before, after := [PLAIN_TEXT, ENCODING_8BIT, ""], [CreatedLine(setting), URL_LINE, ""];
    var lines := before + [SIGNATURE] + after;
    assert lines == TextLines(setting) + [""];
    NoDash(PLAIN_TEXT, boundary);
    NoDash(ENCODING_8BIT, boundary);
    NoDash(CreatedLine(setting), boundary);
    NoDash(URL_LINE, boundary);
    NoDash("", boundary);
    hide *;
    SignatureLine(boundary);
    CleanThree(PLAIN_TEXT, ENCODING_8BIT, "", boundary);
    CleanThree(CreatedLine(setting), URL_LINE, "", boundary);
    DelimitersConcat(before + [SIGNATURE], after, boundary);
    DelimitersConcat(before, [SIGNATURE], boundary);
    DelimitersOfOne(SIGNATURE, boundary);
  }

  lemma CleanThree(a: string, b: string, c: string, boundary: string)
    requires !IsDelimiter(a, boundary) && !IsDelimiter(b, boundary) && !IsDelimiter(c, boundary)
    ensures Delimiters([a, b, c], boundary) == []
  {
    DelimitersOfClean([a, b, c], boundary);
  }

  lemma {:induction false} InnerDelimiters(boundary: string, setting: Setting, attachments: seq<Attachment>)
    requires Sane(setting) && Writable(attachments)
    ensures Delimiters(InnerLines(boundary, setting, attachments), boundary) ==
      ["--" + boundary] + (if Safe(boundary) then [] else [SIGNATURE]) + Times("--" + boundary, |attachments|)
  {
    hide Delimiters, IsDelimiter, TextLines, AttachmentLines, SIGNATURE, Safe;
    var d := "--" + boundary;
    OpeningLine(boundary);
    DelimitersOfOne(d, boundary);
    if attachments == [] {
      TextDelimiters(boundary, setting);
      DelimitersConcat([d], TextLines(setting) + [""], boundary);
    } else {
      var n := |attachments| - 1;
      var a := attachments[n];
      assert a in attachments;
      var front := InnerLines(boundary, setting, attachments[..n]);
      var lines := AttachmentLines(a.name, a.base64, setting) + [""];
      InnerDelimiters(boundary, setting, attachments[..n]);
      AttachmentClean(a.name, a.base64, boundary, setting);
      DelimitersOfClean(lines, boundary);
      DelimitersConcat(front, [d], boundary);
      DelimitersConcat(front + [d], lines, boundary);
      assert Times(d, |attachments|) == Times(d, n) + [d];
    }
  }

  lemma HeaderHasNoDelimiter(subject: string, boundary: string)
    ensures Delimiters(HeaderLines(subject, boundary) + [""], boundary) == []
  {
    HeaderClean(subject, boundary);
    DelimitersOfClean(HeaderLines(subject, boundary) + [""], boundary);
  }

  // The delimiter lines of a finished message with n attachments, in order: n + 1 opening ones and
  // the closing one - and the signature mark, taken for one, for the two degenerate boundaries.
  lemma MessageDelimiters(subject: string, boundary: string, setting: Setting, attachments: seq<Attachment>)
    requires Sane(setting) && OneLine(subject) && OneLine(boundary) && Writable(attachments)
    ensures Delimiters(Lines(MessageText(subject, boundary, setting, attachments)), boundary) ==
      ["--" + boundary] + (if Safe(boundary) then [] else [SIGNATURE]) + Times("--" + boundary, |attachments|) +
      ["--" + boundary + "--"]
  {
    MessageLines(subject, boundary, setting, attachments);
    InnerDelimiters(boundary, setting, attachments);
    HeaderHasNoDelimiter(subject, boundary);
    hide *;
    var header := HeaderLines(subject, boundary) + [""];
    var inner := InnerLines(boundary, setting, attachments);
    DelimitersBetween(header, inner, boundary);
  }

  lemma DelimitersBetween(header: seq<string>, inner: seq<string>, boundary: string)
    requires Delimiters(header, boundary) == []
    ensures Delimiters(header + (inner + ["--" + boundary + "--"] + [""]), boundary) ==
      Delimiters(inner, boundary) + ["--" + boundary + "--"]
  {
    hide *;
    var close := "--" + boundary + "--";
    OpeningLine(boundary);
    EmptyLine(boundary);
    DelimitersOfOne(close, boundary);
    DelimitersOfOne("", boundary);
    DelimitersConcat(header, inner + [close] + [""], boundary);
    DelimitersConcat(inner + [close], [""], boundary);
    DelimitersConcat(inner, [close], boundary);
  }
}
