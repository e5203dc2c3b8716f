/** The e-mail writer of src/common.cpp: one message buffer that three functions append to. */
module Email {
  import opened Text
  import opened Base64
  import opened Strings

  const NEW_LINE := "\n"
  const HOMEPAGE_URL := "https://www.datovka.cz/"
  const LINE_LENGTH := 60

  const SUBJECT := "Subject: "
  const MIME_VERSION := "MIME-Version: 1.0"
  const MULTIPART := "Content-Type: multipart/mixed;"
  const BOUNDARY_PARAM := " boundary=\""
  const PLAIN_TEXT := "Content-Type: text/plain; charset=UTF-8"
  const ENCODING_8BIT := "Content-Transfer-Encoding: 8bit"
  const SIGNATURE := "-- "
  const URL_LINE := " <URL: " + HOMEPAGE_URL + ">"

  const CONTENT_TYPE := "Content-Type: "
  const CHARSET := "; charset=UTF-8;"
  const NAME_PARAM := " name=\""
  const ENCODING_BASE64 := "Content-Transfer-Encoding: base64"
  const ATTACHMENT := "Content-Disposition: attachment;"
  const FILENAME_PARAM := " filename=\""

  // What the writer takes from its surroundings: the type of given data, and the two texts of
  // the signature.
  datatype Setting = Setting(mimeTypeForData: seq<Byte> -> string, createdUsing: string, version: string)

  // ----- What is written, line by line -----

  function HeaderLines(subject: string, boundary: string): (lines: seq<string>)
  {
    [SUBJECT + subject, MIME_VERSION, MULTIPART, BOUNDARY_PARAM + boundary + "\""]
  }

  function CreatedLine(setting: Setting): (text: string)
  {
    " " + setting.createdUsing + " " + setting.version + "."
  }

  // The fixed first part.
  function TextLines(setting: Setting): (lines: seq<string>)
  {
    [PLAIN_TEXT, ENCODING_8BIT, "", SIGNATURE, CreatedLine(setting), URL_LINE]
  }

  function OpeningLines(subject: string, boundary: string, setting: Setting): (lines: seq<string>)
  {
    HeaderLines(subject, boundary) + ["", "--" + boundary] + TextLines(setting)
  }

  function AttachmentHeaderLines(name: string, mimeType: string): (lines: seq<string>)
  {
    [CONTENT_TYPE + mimeType + CHARSET, NAME_PARAM + name + "\"", ENCODING_BASE64,
     ATTACHMENT, FILENAME_PARAM + name + "\""]
  }

  // The payload cut into lines.
  function Chunks(payload: string): (chunks: seq<string>)
  {
    if payload == "" then []
    else if |payload| <= LINE_LENGTH then [payload]
    else [payload[..LINE_LENGTH]] + Chunks(payload[LINE_LENGTH..])
  }

  function AttachmentLines(name: string, base64: string, setting: Setting): (lines: seq<string>)
  {
    AttachmentHeaderLines(name, setting.mimeTypeForData(Decode(base64))) + [""] + Chunks(base64)
  }

  // What one call appends to the buffer.
  function AttachmentText(name: string, base64: string, boundary: string, setting: Setting): (text: string)
  {
    "\n" + Unlines(["--" + boundary] + AttachmentLines(name, base64, setting))
  }

  function ClosingText(boundary: string): (text: string)
  {
    "\n" + "--" + boundary + "--" + "\n"
  }

  // ----- The functions -----

  // Appending one line to the lines written since `before`.
  lemma Line(before: string, lines: seq<string>, line: string) returns (longer: seq<string>)
    ensures longer == lines + [line]
    ensures before + Unlines(lines) + (line + "\n") == before + Unlines(longer)
  {
    longer := lines + [line];
    UnlinesSnoc(lines, line);
  }

  // Appending a header field folded before its quoted parameter.
  lemma Folded(before: string, lines: seq<string>, first: string, open: string, value: string)
    returns (longer: seq<string>)
    ensures longer == lines + [first, open + value + "\""]
    ensures before + Unlines(lines) + (first + "\n" + open + value + "\"" + "\n") == before + Unlines(longer)
  {
    var second := open + value + "\"";
    longer := lines + [first, second];
    assert first + "\n" + open + value + "\"" + "\n" == (first + "\n") + (second + "\n");
    UnlinesSnoc(lines, first);
    UnlinesSnoc(lines + [first], second);
    assert lines + [first] + [second] == longer;
  }

  lemma NoLines(before: string)
    ensures before + Unlines([]) == before
  {
  }

  // Three lines in a row.
  lemma Three(before: string, a: string, b: string, c: string)
    ensures before + (a + "\n") + (b + "\n") + (c + "\n") == before + Unlines([a, b, c])
  {
    hide Unlines;
    NoLines(before);
    var lines := Line(before, [], a);
    lines := Line(before, lines, b);
    lines := Line(before, lines, c);
    assert lines == [a, b, c];
  }

  lemma OpeningWritten(subj: string, boundary: string, setting: Setting)
    ensures Unlines([SUBJECT + subj, MIME_VERSION, MULTIPART]) +
        Unlines([BOUNDARY_PARAM + boundary + "\"", "", "--" + boundary]) +
        Unlines([PLAIN_TEXT, ENCODING_8BIT, ""]) + Unlines([SIGNATURE, CreatedLine(setting), URL_LINE]) ==
      Unlines(OpeningLines(subj, boundary, setting))
  {
    hide Unlines, SUBJECT, MIME_VERSION, MULTIPART, BOUNDARY_PARAM, PLAIN_TEXT, ENCODING_8BIT, SIGNATURE, URL_LINE;
    var a := [SUBJECT + subj, MIME_VERSION, MULTIPART];
    var b := [BOUNDARY_PARAM + boundary + "\"", "", "--" + boundary];
    var c := [PLAIN_TEXT, ENCODING_8BIT, ""];
    var d := [SIGNATURE, CreatedLine(setting), URL_LINE];
    UnlinesConcat(a, b);
    UnlinesConcat(a + b, c);
    UnlinesConcat(a + b + c, d);
    assert OpeningLines(subj, boundary, setting) == a + b + c + d;
  }

  // The lines of the opening, word by word.
  lemma OpeningIs(subj: string, boundary: string, setting: Setting)
    ensures OpeningLines(subj, boundary, setting) == [
      "Subject: " + subj, "MIME-Version: 1.0", "Content-Type: multipart/mixed;", " boundary=\"" + boundary + "\"", "",
      "--" + boundary, "Content-Type: text/plain; charset=UTF-8", "Content-Transfer-Encoding: 8bit", "", "-- ",
      " " + setting.createdUsing + " " + setting.version + ".", " <URL: https://www.datovka.cz/>"]
  {
    HeaderIs(subj, boundary);
    TextIs(setting);
    hide HeaderLines, TextLines;
    TwelveLines("Subject: " + subj, "MIME-Version: 1.0", "Content-Type: multipart/mixed;",
                " boundary=\"" + boundary + "\"", "", "--" + boundary, "Content-Type: text/plain; charset=UTF-8",
                "Content-Transfer-Encoding: 8bit", "", "-- ",
                " " + setting.createdUsing + " " + setting.version + ".", " <URL: https://www.datovka.cz/>");
  }

  lemma HeaderIs(subj: string, boundary: string)
    ensures HeaderLines(subj, boundary) == ["Subject: " + subj, "MIME-Version: 1.0", "Content-Type: multipart/mixed;",
      " boundary=\"" + boundary + "\""]
  {
  }

  lemma TextIs(setting: Setting)
    ensures TextLines(setting) == ["Content-Type: text/plain; charset=UTF-8", "Content-Transfer-Encoding: 8bit", "",
      "-- ", " " + setting.createdUsing + " " + setting.version + ".", " <URL: https://www.datovka.cz/>"]
  {
    UrlIs();
    hide URL_LINE;
  }

  lemma UrlIs()
    ensures URL_LINE == " <URL: https://www.datovka.cz/>"
  {
  }

  lemma TwelveLines(a: string, b: string, c: string, d: string, e: string, f: string, g: string, h: string, i: string,
      j: string, k: string, l: string)
    ensures [a, b, c, d] + [e, f] + [g, h, i, j, k, l] == [a, b, c, d, e, f, g, h, i, j, k, l]
  {
  }

  method CreateEmailMessage(message: QString, subj: string, boundary: string, setting: Setting)
    modifies message
    ensures message.text == Unlines(OpeningLines(subj, boundary, setting))
    ensures message.text == Unlines([
      "Subject: " + subj, "MIME-Version: 1.0", "Content-Type: multipart/mixed;", " boundary=\"" + boundary + "\"", "",
      "--" + boundary, "Content-Type: text/plain; charset=UTF-8", "Content-Transfer-Encoding: 8bit", "", "-- ",
      " " + setting.createdUsing + " " + setting.version + ".", " <URL: https://www.datovka.cz/>"])
  {
    OpeningIs(subj, boundary, setting);
    hide Unlines, SUBJECT, MIME_VERSION, MULTIPART, BOUNDARY_PARAM, PLAIN_TEXT, ENCODING_8BIT, SIGNATURE, URL_LINE,
      OpeningLines, HeaderLines, TextLines;
    message.Clear();

    message.Append(SUBJECT + subj + NEW_LINE);
    message.Append(MIME_VERSION + NEW_LINE);
    message.Append(MULTIPART + NEW_LINE + BOUNDARY_PARAM + boundary + "\"" + NEW_LINE);
    ghost var param := BOUNDARY_PARAM + boundary + "\"";
    Refold(SUBJECT + subj, MIME_VERSION, MULTIPART, BOUNDARY_PARAM, boundary);
    ghost var header := Unlines([SUBJECT + subj, MIME_VERSION, MULTIPART]);
    assert message.text == header + (param + "\n");

    message.Append(NEW_LINE);
    message.Append("--" + boundary + NEW_LINE);
    Three(header, param, "", "--" + boundary);
    ghost var delimited := message.text;
    message.Append(PLAIN_TEXT + NEW_LINE);
    message.Append(ENCODING_8BIT + NEW_LINE);

    message.Append(NEW_LINE);
    Three(delimited, PLAIN_TEXT, ENCODING_8BIT, "");
    ghost var started := message.text;
    message.Append(SIGNATURE + NEW_LINE);
    message.Append(" " + setting.createdUsing + " " + setting.version + "." + NEW_LINE);
    message.Append(URL_LINE + NEW_LINE);
    Three(started, SIGNATURE, CreatedLine(setting), URL_LINE);
    assert "" + "\n" == "\n";
    assert delimited == header + Unlines([param, "", "--" + boundary]);
    assert started == delimited + Unlines([PLAIN_TEXT, ENCODING_8BIT, ""]);
    assert message.text == started + Unlines([SIGNATURE, CreatedLine(setting), URL_LINE]);
    OpeningWritten(subj, boundary, setting);
  }

  lemma Refold(a: string, b: string, first: string, open: string, value: string)
    ensures "" + (a + "\n") + (b + "\n") + (first + "\n" + open + value + "\"" + "\n") ==
      Unlines([a, b, first]) + ((open + value + "\"") + "\n")
  {
    hide Unlines;
    Three("", a, b, first);
    var t := "" + (a + "\n") + (b + "\n");
    var second := open + value + "\"" + "\n";
    assert first + "\n" + open + value + "\"" + "\n" == (first + "\n") + second;
    assert t + ((first + "\n") + second) == t + (first + "\n") + second;
    assert "" + Unlines([a, b, first]) == Unlines([a, b, first]);
  }

  method AddAttachmentToEmailMessage(message: QString, attachName: string, base64: string, boundary: string,
      setting: Setting)
    modifies message
    ensures message.text == old(message.text) + AttachmentText(attachName, base64, boundary, setting)
    ensures message.text == old(message.text) + ("\n" + Unlines([
      "--" + boundary, "Content-Type: " + setting.mimeTypeForData(Decode(base64)) + "; charset=UTF-8;",
      " name=\"" + attachName + "\"", "Content-Transfer-Encoding: base64", "Content-Disposition: attachment;",
      " filename=\"" + attachName + "\"", ""] + Chunks(base64)))
  {
    AttachmentIs(attachName, base64, boundary, setting);
    hide Unlines, Emitted, Chunks, Decode, CONTENT_TYPE, CHARSET, NAME_PARAM, ENCODING_BASE64, ATTACHMENT,
      FILENAME_PARAM, AttachmentText;
    var mimeType := setting.mimeTypeForData(Decode(base64));

    message.Append(NEW_LINE);
    ghost var before := message.text;
    ghost var lines: seq<string> := [];
    NoLines(before);
    message.Append("--" + boundary + NEW_LINE);
    lines := Line(before, lines, "--" + boundary);
    message.Append(CONTENT_TYPE + mimeType + CHARSET + NEW_LINE + NAME_PARAM + attachName + "\"" + NEW_LINE);
    lines := Folded(before, lines, CONTENT_TYPE + mimeType + CHARSET, NAME_PARAM, attachName);
    message.Append(ENCODING_BASE64 + NEW_LINE);
    lines := Line(before, lines, ENCODING_BASE64);
    message.Append(ATTACHMENT + NEW_LINE + FILENAME_PARAM + attachName + "\"" + NEW_LINE);
    lines := Folded(before, lines, ATTACHMENT, FILENAME_PARAM, attachName);

    AppendWrapped(message, base64);
    message.Append(NEW_LINE);
    AttachmentWritten(old(message.text), attachName, base64, boundary, setting, lines);
  }

  method AppendWrapped(message: QString, base64: string)
    modifies message
    ensures message.text == old(message.text) + Emitted(base64)
  {
    hide Emitted;
    ghost var header := message.text;
    EmittedNothing(header);
    var i := 0;
    while i < |base64|
      invariant 0 <= i <= |base64|
      invariant message.text == header + Emitted(base64[..i])
    {
      EmittedStep(header, base64, i);
      if i % LINE_LENGTH == 0 {
        message.Append(NEW_LINE);
      }
      message.Append([base64[i]]);
      i := i + 1;
    }
    assert base64[..i] == base64;
  }

  // The lines of an attachment, word by word.
  lemma AttachmentIs(name: string, base64: string, boundary: string, setting: Setting)
    ensures AttachmentText(name, base64, boundary, setting) == "\n" + Unlines([
      "--" + boundary, "Content-Type: " + setting.mimeTypeForData(Decode(base64)) + "; charset=UTF-8;",
      " name=\"" + name + "\"", "Content-Transfer-Encoding: base64", "Content-Disposition: attachment;",
      " filename=\"" + name + "\"", ""] + Chunks(base64))
  {
    AttachmentHeaderIs(name, setting.mimeTypeForData(Decode(base64)));
    hide Unlines, Chunks, Decode, AttachmentHeaderLines;
    var lines := [
      "Content-Type: " + setting.mimeTypeForData(Decode(base64)) + "; charset=UTF-8;", " name=\"" + name + "\"",
      "Content-Transfer-Encoding: base64", "Content-Disposition: attachment;", " filename=\"" + name + "\""];
    assert AttachmentHeaderLines(name, setting.mimeTypeForData(Decode(base64))) == lines;
    SevenLines("--" + boundary, lines[0], lines[1], lines[2], lines[3], lines[4], Chunks(base64));
  }

  lemma SevenLines(a: string, b: string, c: string, d: string, e: string, f: string, rest: seq<string>)
    ensures [a] + ([b, c, d, e, f] + [""] + rest) == [a, b, c, d, e, f, ""] + rest
  {
  }

  lemma AttachmentHeaderIs(name: string, mimeType: string)
    ensures AttachmentHeaderLines(name, mimeType) == [
      "Content-Type: " + mimeType + "; charset=UTF-8;", " name=\"" + name + "\"",
      "Content-Transfer-Encoding: base64", "Content-Disposition: attachment;", " filename=\"" + name + "\""]
  {
  }

  lemma AttachmentWritten(start: string, name: string, base64: string, boundary: string, setting: Setting,
      lines: seq<string>)
    requires lines == ["--" + boundary] + AttachmentHeaderLines(name, setting.mimeTypeForData(Decode(base64)))
    ensures start + "\n" + Unlines(lines) + Emitted(base64) + "\n" ==
      start + AttachmentText(name, base64, boundary, setting)
  {
    hide Unlines, Emitted, Chunks, Decode, AttachmentHeaderLines;
    var body := [""] + Chunks(base64);
    EmittedIsWrapped(base64);
    UnlinesConcat(lines, body);
    assert lines + body == ["--" + boundary] + AttachmentLines(name, base64, setting);
    var a, b := Unlines(lines), Emitted(base64);
    assert start + "\n" + a + b + "\n" == start + ("\n" + (a + (b + "\n")));
  }

  method FinishEmailMessage(message: QString, boundary: string)
    modifies message
    ensures message.text == old(message.text) + ClosingText(boundary)
    ensures message.text == old(message.text) + ("\n" + "--" + boundary + "--" + "\n")
  {
    message.Append(NEW_LINE + "--" + boundary + "--" + NEW_LINE);
  }

  // ----- The wrap loop -----

  // What the loop has appended after the characters of `payload`.
  ghost function Emitted(payload: string): (text: string)
  {
    if payload == "" then ""
    else
      var i := |payload| - 1;
      Emitted(payload[..i]) + (if i % LINE_LENGTH == 0 then "\n" else "") + [payload[i]]
  }

  lemma EmittedNothing(before: string)
    ensures before == before + Emitted("")
  {
  }

  lemma EmittedStep(before: string, payload: string, i: nat)
    requires i < |payload|
    ensures before + Emitted(payload[..i + 1]) ==
      if i % LINE_LENGTH == 0 then before + Emitted(payload[..i]) + "\n" + [payload[i]]
      else before + Emitted(payload[..i]) + [payload[i]]
    ensures payload[..0] == ""
  {
    assert payload[..i + 1][..i] == payload[..i];
  }

  lemma EmittedSnoc(payload: string, c: char)
    ensures Emitted(payload + [c]) ==
      Emitted(payload) + (if |payload| % LINE_LENGTH == 0 then "\n" else "") + [c]
  {
    assert (payload + [c])[..|payload|] == payload;
  }

  lemma {:induction false} EmittedConcat(a: string, b: string)
    requires |a| % LINE_LENGTH == 0
    ensures Emitted(a + b) == Emitted(a) + Emitted(b)
    decreases |b|
  {
    if b == "" {
      assert a + b == a;
    } else {
      hide Emitted;
      var i := |b| - 1;
      var p, c := b[..i], b[i];
      EmittedConcat(a, p);
      EmittedSnoc(a + p, c);
      EmittedSnoc(p, c);
      assert b == p + [c] && a + b == a + p + [c];
      WholeLines(|a|, |p|);
      var br := if |p| % LINE_LENGTH == 0 then "\n" else "";
      assert Emitted(a) + Emitted(p) + br + [c] == Emitted(a) + (Emitted(p) + br + [c]);
    }
  }

  lemma WholeLines(m: nat, n: nat)
    requires m % LINE_LENGTH == 0
    ensures (m + n) % LINE_LENGTH == n % LINE_LENGTH
  {
  }

  lemma {:induction false} EmittedShort(a: string)
    requires 1 <= |a| <= LINE_LENGTH
    ensures Emitted(a) == "\n" + a
  {
    var i := |a| - 1;
    if i > 0 {
      EmittedShort(a[..i]);
    } else {
      assert Emitted(a[..i]) == "";
    }
    assert a == a[..i] + [a[i]];
  }

  // The loop and the line break after it write an empty line and then the chunks.
  lemma {:induction false} EmittedIsWrapped(payload: string)
    ensures Emitted(payload) + "\n" == Unlines([""] + Chunks(payload))
    decreases |payload|
  {
    if payload == "" {
      assert [""] + Chunks("") == [""];
    } else if |payload| <= LINE_LENGTH {
      EmittedShort(payload);
      UnlinesConcat([""], [payload]);
      assert Unlines([payload]) == payload + "\n" + Unlines([]);
      assert Unlines([""]) == "\n";
    } else {
      var a, b := payload[..LINE_LENGTH], payload[LINE_LENGTH..];
      assert payload == a + b;
      EmittedConcat(a, b);
      EmittedShort(a);
      EmittedIsWrapped(b);
      OneLineMore(a, Chunks(b));
      hide Emitted, Unlines;
      assert Emitted(a) + Emitted(b) + "\n" == Emitted(a) + (Emitted(b) + "\n");
    }
  }

  lemma OneLineMore(line: string, lines: seq<string>)
    ensures Unlines([""] + ([line] + lines)) == "\n" + line + Unlines([""] + lines)
  {
    assert ([""] + ([line] + lines))[1..] == [line] + lines && ([line] + lines)[1..] == lines;
    assert ([""] + lines)[1..] == lines;
    assert Unlines([""] + lines) == "\n" + Unlines(lines);
    assert "\n" + (line + "\n" + Unlines(lines)) == "\n" + line + ("\n" + Unlines(lines));
  }
}
