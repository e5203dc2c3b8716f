/** The caller that turns attachments into a message, and the trip from their bytes back to them. */
module EmailSend {
  import opened Text
  import opened Base64
  import opened Mime
  import opened Email
  import opened EmailHeaders
  import opened EmailLaws
  import opened Strings

  datatype File = File(name: string, data: seq<Byte>)

  function Attached(files: seq<File>): (attachments: seq<Attachment>)
    ensures |attachments| == |files|
    ensures forall i :: 0 <= i < |files| ==> attachments[i] == Attachment(files[i].name, Encode(files[i].data))
  {
    if files == [] then []
    else
      var n := |files| - 1;
      Attached(files[..n]) + [Attachment(files[n].name, Encode(files[n].data))]
  }

  // ----- What the receiver extracts -----

  // A part presented as an attachment, under its file name, decoded.
  function Extracted(part: Part): (files: seq<File>)
  {
    if part.disposition.Some? && part.encoding == "base64" then
      match LookupParam(part.disposition.value.params, "filename")
      case Some(name) => [File(name, Decode(part.body))]
      case None => []
    else []
  }

  function Received(parts: seq<Part>): (files: seq<File>)
  {
    if parts == [] then [] else Extracted(parts[0]) + Received(parts[1..])
  }

  lemma {:induction false} ReceivedSnoc(parts: seq<Part>, last: Part)
    ensures Received(parts + [last]) == Received(parts) + Received([last])
  {
    hide Extracted;
    if parts == [] {
      assert parts + [last] == [last];
    } else {
      assert (parts + [last])[0] == parts[0] && (parts + [last])[1..] == parts[1..] + [last];
      ReceivedSnoc(parts[1..], last);
    }
  }

  lemma EncodeIsPayload(data: seq<Byte>)
    ensures IsPayload(Encode(data)) && OneLine(Encode(data))
  {
    EncodeShape(data);
  }

  ghost predicate AllOneLine(files: seq<File>)
  {
    forall f :: f in files ==> OneLine(f.name)
  }

  ghost predicate AllNamesQuotable(files: seq<File>)
  {
    forall f :: f in files ==> Quotable(f.name)
  }

  lemma AttachedAre(files: seq<File>)
    ensures AllOneLine(files) ==> Writable(Attached(files))
    ensures AllQuotable(Attached(files)) <==> AllNamesQuotable(files)
  {
    hide Quotable, Attached, OneLine, IsPayload, Encode;
    var attachments := Attached(files);
    forall a | a in attachments
      ensures exists f :: f in files && a == Attachment(f.name, Encode(f.data)) && IsPayload(a.base64)
    {
      var i :| 0 <= i < |attachments| && attachments[i] == a;
      EncodeIsPayload(files[i].data);
      assert files[i] in files;
    }
    forall f | f in files ensures exists a :: a in attachments && a.name == f.name {
      var i :| 0 <= i < |files| && files[i] == f;
      assert attachments[i] in attachments;
    }
  }

  // ----- Legal boundaries, section 5.1.1 of RFC 2046 -----

  predicate IsBoundaryChar(c: char)
  {
    'A' <= c <= 'Z' || 'a' <= c <= 'z' || '0' <= c <= '9' || c in "'()+_,-./:=? "
  }

  predicate LegalBoundary(boundary: string)
  {
    1 <= |boundary| <= 70 && (forall c :: c in boundary ==> IsBoundaryChar(c)) && boundary[|boundary| - 1] != ' '
  }

  lemma LegalIsGood(boundary: string)
    requires LegalBoundary(boundary)
    ensures OneLine(boundary) && Quotable(boundary) && Safe(boundary)
  {
  }

  // ----- The boundary the caller makes -----

  predicate IsAlphanumeric(c: char) { 'A' <= c <= 'Z' || 'a' <= c <= 'z' || '0' <= c <= '9' }

  // The characters a random string is drawn from.
  predicate IsRandomChar(c: char) { IsAlphanumeric(c) || c in "!#$%&()*+,-.:=?@[]_{|}~" }

  // A UTC time written dd.MM.yyyy-HH:mm:ss.zzz.
  predicate IsTimeText(s: string) { |s| == 23 && forall c :: c in s ==> '0' <= c <= '9' || c in ".-:" }

  function BoundaryOf(random: string, now: string): (text: string)
  {
    "-----" + random + "_" + now
  }

  // Every boundary the caller makes is read back; but it keeps to section 5.1.1 of RFC 2046 only
  // when the random string happens to hold none of the characters not allowed there.
  lemma MadeBoundary(random: string, now: string)
    requires |random| == 16 && (forall c :: c in random ==> IsRandomChar(c)) && IsTimeText(now)
    ensures var b := BoundaryOf(random, now); OneLine(b) && Quotable(b) && Safe(b)
    ensures BoundaryOf(random, now) == "-----" + random + "_" + now
    ensures LegalBoundary(BoundaryOf(random, now)) <==> forall c :: c in random ==> IsBoundaryChar(c)
  {
    var b := BoundaryOf(random, now);
    MadeOf(random, now);
    TimeChars(now);
    RandomChars();
    hide BoundaryOf, IsRandomChar, IsBoundaryChar, IsTimeText;
    assert b[|b| - 1] == now[22] && now[22] in now;
    forall c | c in b ensures c != '\n' && c != '"' && c != '\\' {
      assert c in random || c in now || c in "-----_";
    }
    if forall c :: c in random ==> IsBoundaryChar(c) {
      forall c | c in b ensures IsBoundaryChar(c) {
        assert c in random || c in now || c in "-----_";
      }
    }
  }

  // Sixteen hash marks may be drawn: the message reads back, but its boundary is not legal.
  lemma MadeIllegal(now: string)
    requires IsTimeText(now)
    ensures var random := "################"; var b := BoundaryOf(random, now);
      (forall c :: c in random ==> IsRandomChar(c)) && Quotable(b) && Safe(b) && !LegalBoundary(b)
  {
    var random := "################";
    HashIsRandom(random);
    hide *;
    MadeBoundary(random, now);
  }

  lemma HashIsRandom(random: string)
    requires random == "################"
    ensures |random| == 16 && (forall c :: c in random ==> IsRandomChar(c))
    ensures exists c :: c in random && !IsBoundaryChar(c)
  {
    assert random[0] in random;
  }

  lemma TimeChars(now: string)
    requires IsTimeText(now)
    ensures forall c :: c in now ==> IsBoundaryChar(c) && c != ' ' && c != '\n' && c != '"' && c != '\\'
    ensures |now| == 23
  {
  }

  lemma RandomChars()
    ensures forall c :: IsRandomChar(c) ==> c != '\n' && c != '"' && c != '\\'
    ensures forall c :: c in "-----_" ==> IsBoundaryChar(c) && c != '\n' && c != '"' && c != '\\'
  {
  }

  lemma MadeOf(random: string, now: string)
    requires |random| == 16 && |now| == 23
    ensures var b := BoundaryOf(random, now);
      |b| == 45 && b[44] == now[22] &&
      (forall c :: c in b <==> c in random || c in now || c in "-----_")
  {
    var b := BoundaryOf(random, now);
    assert b == "-----" + random + "_" + now;
  }

  // ----- The caller -----

  // From the bytes to a finished message and back. The receiver gets the same files under the same
  // names in the same order if and only if no name holds a quote or a backslash; then also the
  // same subject, boundary and text.
  lemma SentIsReceived(subject: string, boundary: string, setting: Setting, files: seq<File>)
    requires Sane(setting) && OneLine(subject) && AllOneLine(files)
    requires OneLine(boundary) && Quotable(boundary) && Safe(boundary)
    ensures var mail := ParseMail(MessageText(subject, boundary, setting, Attached(files)));
      (mail.Some? && Received(mail.value.parts) == files <==> AllNamesQuotable(files)) &&
      (AllNamesQuotable(files) ==>
        mail.value.subject == subject && mail.value.boundary == boundary &&
        |mail.value.parts| == |files| + 1 && mail.value.parts[0] == TextPart(setting))
  {
    hide ParseMail, MessageText, Received, TextPart, Attached, AllQuotable, AllNamesQuotable, PartLines, ParseParts;
    var attachments := Attached(files);
    AttachedAre(files);
    PartsOf(subject, boundary, setting, attachments);
    PartsReceived(setting, files);
    ComposedMailReads(subject, boundary, setting, attachments);
    FirstExpected(setting, attachments);
    ExpectedCount(setting, attachments);
  }

  // With a proper boundary a message reads exactly when its parts do.
  lemma PartsOf(subject: string, boundary: string, setting: Setting, attachments: seq<Attachment>)
    requires Sane(setting) && OneLine(subject) && Writable(attachments)
    requires OneLine(boundary) && Quotable(boundary) && Safe(boundary)
    ensures var mail := ParseMail(MessageText(subject, boundary, setting, attachments));
      var parts := ParseParts(PartLines(setting, attachments));
      mail.Some? == parts.Some? && (mail.Some? ==> mail.value.parts == parts.value)
  {
    HeaderFound(subject, boundary, setting, attachments);
    BoundaryReads(boundary);
    PartsFound(boundary, setting, attachments);
    InnerSegments(boundary, setting, attachments);
    FirstParam([Param("boundary", boundary)], "boundary");
    hide ParseMail, MessageText, ParseContent, QuotedBody, UpToClose, ParseParts, Segments, InnerLines, ExpectedParts,
      Quotable, Safe, AllQuotable, LookupParam, PartLines;
    assert ([[]] + PartLines(setting, attachments))[1..] == PartLines(setting, attachments);
  }

  // An attachment that reads at all yields one file, the one sent exactly when its name needs no
  // escaping.
  lemma OneReceived(file: File, setting: Setting)
    requires Sane(setting)
    ensures var a := Attachment(file.name, Encode(file.data));
      var part := ParsePart(AttachmentLines(a.name, a.base64, setting) + [""]);
      part.Some? ==> |Extracted(part.value)| == 1 && (Extracted(part.value) == [file] <==> Quotable(file.name))
  {
    var a := Attachment(file.name, Encode(file.data));
    var disposition := AttachedPartIs(a, setting);
    QuotedBodyReads("attachment", "filename", file.name);
    BodyDecodes(file.data);
    hide ParsePart, ParseContent, QuotedBody, Quotable, Encode, Decode, LookupParam, Chunks, Unlines, AttachmentLines;
    if ParsePart(AttachmentLines(a.name, a.base64, setting) + [""]).Some? {
      FirstParam(disposition.params, "filename");
    }
  }

  lemma AttachedPartIs(a: Attachment, setting: Setting) returns (disposition: Content)
    requires Sane(setting)
    ensures var part := ParsePart(AttachmentLines(a.name, a.base64, setting) + [""]);
      part.Some? ==>
        part.value.encoding == "base64" && part.value.disposition == Some(disposition) &&
        ParseContent(QuotedBody("attachment", "filename", a.name)) == Some(disposition) &&
        part.value.body == Unlines(Chunks(a.base64))
  {
    hide ParsePart, ParseContent, PartOf, Chunks, Unlines, AttachmentHeaderLines, Decode, TypeBody, QuotedBody,
      ENCODING;
    var mimeType := setting.mimeTypeForData(Decode(a.base64));
    var typeBody, text := TypeBody(mimeType, a.name), QuotedBody("attachment", "filename", a.name);
    var header := AttachmentHeaderLines(a.name, mimeType);
    AttachmentHeaderReads(a.name, mimeType);
    PartReads(header, Chunks(a.base64), [Field("Content-Type", typeBody), Field(ENCODING, "base64"),
      Field("Content-Disposition", text)]);
    PartOfThree(typeBody, "base64", text, Unlines(Chunks(a.base64)));
    assert AttachmentLines(a.name, a.base64, setting) + [""] == header + [""] + (Chunks(a.base64) + [""]);
    disposition := if ParseContent(text).Some? then ParseContent(text).value else Content("", []);
  }

  lemma BodyDecodes(data: seq<Byte>)
    ensures Decode(Unlines(Chunks(Encode(data)))) == data
  {
    var text := Encode(data);
    ChunksLossless(text);
    DecodeIgnoresLineBreaks(Unlines(Chunks(text)), 0, 0);
    DecodeIgnoresLineBreaks(text, 0, 0);
    DecodeInvertsEncode(data);
  }

  lemma {:induction false} PartsReceived(setting: Setting, files: seq<File>)
    requires Sane(setting)
    ensures var parts := ParseParts(PartLines(setting, Attached(files)));
      parts.Some? ==> (Received(parts.value) == files <==> AllNamesQuotable(files))
  {
    hide ParsePart, ParseParts, Received, TextPart, Attached, Encode, Quotable, TextLines, AttachmentLines, Extracted;
    if files == [] {
      NothingReceived(setting);
    } else {
      var n := |files| - 1;
      var front, file, attachments := files[..n], files[n], Attached(files);
      AttachedSnoc(files);
      PartsReceived(setting, front);
      OneReceived(file, setting);
      var last := AttachmentLines(file.name, Encode(file.data), setting) + [""];
      ParsePartsSnoc(PartLines(setting, Attached(front)), last);
      assert files == front + [file];
      assert AllNamesQuotable(files) <==> AllNamesQuotable(front) && Quotable(file.name);
      if ParseParts(PartLines(setting, attachments)).Some? {
        var parts, part := ParseParts(PartLines(setting, Attached(front))).value, ParsePart(last).value;
        ReceivedSnoc(parts, part);
        ReceivedIs(part);
        SameSnoc(Received(parts), Extracted(part), front, file);
      }
    }
  }

  lemma AttachedSnoc(files: seq<File>)
    requires files != []
    ensures var n := |files| - 1;
      Attached(files)[..n] == Attached(files[..n]) &&
      Attached(files)[n] == Attachment(files[n].name, Encode(files[n].data))
  {
    hide Encode;
  }

  lemma ReceivedIs(part: Part)
    ensures Received([part]) == Extracted(part)
  {
    hide Extracted;
    assert Received([part]) == Extracted(part) + Received([]);
  }

  lemma SameSnoc(a: seq<File>, x: seq<File>, b: seq<File>, y: File)
    requires |x| == 1
    ensures a + x == b + [y] <==> a == b && x == [y]
  {
    if a + x == b + [y] {
      assert (a + x)[..|a|] == a && (b + [y])[..|b|] == b;
      assert (a + x)[|a|] == x[0] && (b + [y])[|b|] == y;
    }
  }

  lemma NothingReceived(setting: Setting)
    ensures var parts := ParseParts(PartLines(setting, Attached([])));
      parts.Some? && Received(parts.value) == []
  {
    hide ParsePart, TextLines;
    TextPartReads(setting);
    assert PartLines(setting, Attached([])) == [TextLines(setting) + [""]];
    assert [TextLines(setting) + [""]][1..] == [];
    assert ParseParts([]) == Some([]);
    var part := TextPart(setting);
    assert [part] + [] == [part];
    ReceivedIs(part);
  }

  lemma {:induction false} ExpectedCount(setting: Setting, attachments: seq<Attachment>)
    ensures |ExpectedParts(setting, attachments)| == |attachments| + 1
  {
    if attachments == [] {
    } else {
      ExpectedCount(setting, attachments[..|attachments| - 1]);
    }
  }

  method SendAttachmentsEmail(subject: string, random: string, now: string, setting: Setting, files: seq<File>)
    returns (email: string)
    requires |random| == 16 && (forall c :: c in random ==> IsRandomChar(c)) && IsTimeText(now)
    ensures email == MessageText(subject, BoundaryOf(random, now), setting, Attached(files))
    ensures Sane(setting) && OneLine(subject) && AllOneLine(files) ==>
      (ParseMail(email).Some? && Received(ParseMail(email).value.parts) == files <==> AllNamesQuotable(files)) &&
      (AllNamesQuotable(files) ==> ParseMail(email).value.subject == subject)
  {
    hide IsRandomChar, IsTimeText, Encode, ParseMail, Received, AttachmentText, ClosingText;
    var emailMessage := new QString("");
    var boundary := BoundaryOf(random, now);
    CreateEmailMessage(emailMessage, subject, boundary, setting);
    assert Attached(files[..0]) == [];
    for i := 0 to |files|
      invariant emailMessage.text == OpenText(subject, boundary, setting, Attached(files[..i]))
    {
      AddAttachmentToEmailMessage(emailMessage, files[i].name, Encode(files[i].data), boundary, setting);
      assert files[..i + 1][..i] == files[..i];
      assert Attached(files[..i + 1])[..i] == Attached(files[..i]);
    }
    FinishEmailMessage(emailMessage, boundary);
    assert files[..|files|] == files;
    email := emailMessage.text;
    MadeBoundary(random, now);
    if Sane(setting) && OneLine(subject) && AllOneLine(files) {
      SentIsReceived(subject, boundary, setting, files);
    }
  }
}
