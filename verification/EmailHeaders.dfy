/** What the reader makes of the header fields the writer produces. */
module EmailHeaders {
  import opened Text
  import opened Mime
  import opened Email

  // Field bodies, as they read once unfolded.
  function QuotedBody(value: string, param: string, quoted: string): (text: string)
  {
    value + ("; " + (param + "=\"" + (quoted + "\"")))
  }

  function TypeBody(mimeType: string, name: string): (text: string)
  {
    mimeType + ("; " + ("charset" + "=" + "UTF-8" + ("; " + ("name" + "=\"" + (name + "\"")))))
  }

  lemma ContentStep(value: string, params: string)
    requires ';' !in value
    ensures ParseContent(value + ("; " + params)) ==
      if ParseParams(params).None? then None else Some(Content(value, ParseParams(params).value))
  {
    var s := value + ("; " + params);
    IndexOfAt(s, ';', |value|);
    assert s[..|value|] == value && s[|value|..] == "; " + params;
    SkipSeparators(params);
  }

  ghost predicate IsParamName(name: string)
  {
    name != "" && !IsSeparator(name[0]) && '=' !in name
  }

  // A field with one quoted parameter reads back as written exactly when the quotes protect it.
  lemma QuotedBodyReads(value: string, param: string, quoted: string)
    requires ';' !in value && IsParamName(param)
    ensures Quotable(quoted) ==>
      ParseContent(QuotedBody(value, param, quoted)) == Some(Content(value, [Param(param, quoted)]))
    ensures ParseContent(QuotedBody(value, param, quoted)).Some? ==>
      var content := ParseContent(QuotedBody(value, param, quoted)).value;
      content.value == value && |content.params| >= 1 && content.params[0].name == param &&
      (content.params[0].value == quoted ==> Quotable(quoted))
  {
    hide ParseContent, ParseParams;
    ContentStep(value, param + "=\"" + (quoted + "\""));
    QuotedParam(param, quoted);
  }

  const UTF8_PARAM := Param("charset", "UTF-8")

  lemma CharsetReads(rest: string)
    ensures ParseParams("charset" + "=" + "UTF-8" + ("; " + rest)) ==
      if ParseParams(rest).None? then None else Some([UTF8_PARAM] + ParseParams(rest).value)
  {
    TokenParam("charset", "UTF-8", "; " + rest);
    SkipSeparators(rest);
  }

  lemma NameReads(name: string)
    ensures var read := ParseParams("name" + "=\"" + (name + "\""));
      read == Some([Param("name", name)]) <==> Quotable(name)
  {
    QuotedParam("name", name);
  }

  lemma TypeBodyReads(mimeType: string, name: string)
    requires ';' !in mimeType
    ensures ParseContent(TypeBody(mimeType, name)) == Some(Content(mimeType, [UTF8_PARAM, Param("name", name)]))
      <==> Quotable(name)
  {
    hide ParseContent, ParseParams, Quotable, UTF8_PARAM;
    var last := "name" + "=\"" + (name + "\"");
    NameReads(name);
    CharsetReads(last);
    ContentStep(mimeType, "charset" + "=" + "UTF-8" + ("; " + last));
    assert forall params: seq<Param> {:trigger [UTF8_PARAM] + params} ::
      [UTF8_PARAM] + params == [UTF8_PARAM, Param("name", name)] <==> params == [Param("name", name)] by {
      forall params: seq<Param> ensures
        [UTF8_PARAM] + params == [UTF8_PARAM, Param("name", name)] <==> params == [Param("name", name)]
      {
        assert ([UTF8_PARAM] + params)[1..] == params;
        assert [UTF8_PARAM, Param("name", name)][1..] == [Param("name", name)];
      }
    }
  }

  // ----- Unfolding -----

  lemma UnfoldHeader(a: string, b: string, c: string, d: string)
    requires !IsFolded(b) && !IsFolded(c) && IsFolded(d)
    ensures Unfold([a, b, c, d]) == [a, b, c + d]
  {
    assert [d][1..] == [] && Unfold([d]) == [d];
    assert [c, d][1..] == [d] && Unfold([c, d]) == [c + d];
    assert [b, c, d][1..] == [c, d] && Unfold([b, c, d]) == [b, c + d];
    assert [a, b, c, d][1..] == [b, c, d];
  }

  lemma UnfoldAttachment(a: string, b: string, c: string, d: string, e: string)
    requires IsFolded(b) && !IsFolded(c) && !IsFolded(d) && IsFolded(e)
    ensures Unfold([a, b, c, d, e]) == [a + b, c, d + e]
  {
    UnfoldHeader(b, c, d, e);
    assert [a, b, c, d, e][1..] == [b, c, d, e];
    assert [b, c, d + e][1..] == [c, d + e];
  }

  lemma UnfoldNothing(a: string, b: string)
    requires !IsFolded(b)
    ensures Unfold([a, b]) == [a, b]
  {
    assert [b][1..] == [] && Unfold([b]) == [b];
    assert [a, b][1..] == [b];
  }

  lemma FieldStep(line: string, field: Field, rest: seq<string>, fields: seq<Field>)
    requires ParseField(line) == Some(field) && ParseFields(rest) == Some(fields)
    ensures ParseFields([line] + rest) == Some([field] + fields)
  {
    assert ([line] + rest)[1..] == rest;
  }

  lemma ThreeFields(a: string, b: string, c: string, x: Field, y: Field, z: Field)
    requires ParseField(a) == Some(x) && ParseField(b) == Some(y) && ParseField(c) == Some(z)
    ensures ParseFields([a, b]) == Some([x, y])
    ensures ParseFields([a, b, c]) == Some([x, y, z])
  {
    hide ParseField;
    assert [c] + [] == [c] && [b] + [c] == [b, c] && [a] + [b, c] == [a, b, c];
    assert [b] + [] == [b] && [a] + [b] == [a, b];
    assert [z] + [] == [z] && [y] + [z] == [y, z] && [x] + [y, z] == [x, y, z];
    assert [y] + [] == [y] && [x] + [y] == [x, y];
    FieldStep(c, z, [], []);
    FieldStep(b, y, [], []);
    FieldStep(b, y, [c], [z]);
    FieldStep(a, x, [b, c], [y, z]);
    FieldStep(a, x, [b], [y]);
  }

  // ----- The lines of the three headers -----

  lemma SubjectLine(subject: string)
    ensures ParseField(SUBJECT + subject) == Some(Field("Subject", subject))
    ensures SUBJECT + subject != ""
  {
    FieldLine("Subject", subject);
    assert SUBJECT == "Subject" + ": ";
  }

  lemma VersionLine()
    ensures ParseField(MIME_VERSION) == Some(Field("MIME-Version", "1.0"))
    ensures MIME_VERSION != "" && !IsFolded(MIME_VERSION)
  {
    FieldLine("MIME-Version", "1.0");
    assert MIME_VERSION == "MIME-Version" + ": " + "1.0";
  }

  // A folded header line: the same characters, grouped by lines and grouped by meaning.
  lemma FoldedLine(first: string, second: string, name: string, value: string, param: string, quoted: string)
    requires ':' !in name
    requires first == name + ": " + value + ";" && second == " " + param + "=\""
    ensures ParseField(first + (second + quoted + "\"")) == Some(Field(name, QuotedBody(value, param, quoted)))
    ensures first != "" && second + quoted + "\"" != "" && IsFolded(second + quoted + "\"")
  {
    hide ParseField;
    var body := QuotedBody(value, param, quoted);
    FieldLine(name, body);
    var q := quoted + "\"";
    var h := name + ": ";
    assert ";" + " " == "; ";
    assert first + (second + quoted + "\"") == h + (value + ((";" + " ") + (param + ("=\"" + q))));
    assert body == value + ("; " + (param + ("=\"" + q)));
  }

  lemma ColonFree()
    ensures ':' !in "Content-Type" && ':' !in "Content-Disposition"
  {
  }

  lemma MultipartWords()
    ensures MULTIPART == "Content-Type" + ": " + "multipart/mixed" + ";" && !IsFolded(MULTIPART)
  {
  }

  lemma BoundaryWords()
    ensures BOUNDARY_PARAM == " " + "boundary" + "=\""
  {
  }

  lemma AttachmentWords()
    ensures ATTACHMENT == "Content-Disposition" + ": " + "attachment" + ";" && !IsFolded(ATTACHMENT)
  {
  }

  lemma FileNameWords()
    ensures FILENAME_PARAM == " " + "filename" + "=\""
  {
  }

  lemma MultipartLine(boundary: string)
    ensures ParseField(MULTIPART + (BOUNDARY_PARAM + boundary + "\"")) ==
      Some(Field("Content-Type", QuotedBody("multipart/mixed", "boundary", boundary)))
    ensures MULTIPART != "" && !IsFolded(MULTIPART)
    ensures BOUNDARY_PARAM + boundary + "\"" != "" && IsFolded(BOUNDARY_PARAM + boundary + "\"")
  {
    hide *;
    ColonFree();
    MultipartWords();
    BoundaryWords();
    FoldedLine(MULTIPART, BOUNDARY_PARAM, "Content-Type", "multipart/mixed", "boundary", boundary);
  }

  lemma HeaderReads(subject: string, boundary: string)
    ensures ParseFields(Unfold(HeaderLines(subject, boundary))) == Some([Field("Subject", subject),
      Field("MIME-Version", "1.0"), Field("Content-Type", QuotedBody("multipart/mixed", "boundary", boundary))])
    ensures "" !in HeaderLines(subject, boundary)
  {
    hide SUBJECT, MIME_VERSION, MULTIPART, BOUNDARY_PARAM, QuotedBody, ParseField, ParseFields, Unfold, IsFolded;
    SubjectLine(subject);
    VersionLine();
    MultipartLine(boundary);
    UnfoldHeader(SUBJECT + subject, MIME_VERSION, MULTIPART, BOUNDARY_PARAM + boundary + "\"");
    ThreeFields(SUBJECT + subject, MIME_VERSION, MULTIPART + (BOUNDARY_PARAM + boundary + "\""),
                Field("Subject", subject), Field("MIME-Version", "1.0"),
                Field("Content-Type", QuotedBody("multipart/mixed", "boundary", boundary)));
  }

  lemma TypeLine(mimeType: string, name: string)
    ensures ParseField(CONTENT_TYPE + mimeType + CHARSET + (NAME_PARAM + name + "\"")) ==
      Some(Field("Content-Type", TypeBody(mimeType, name)))
    ensures CONTENT_TYPE + mimeType + CHARSET != ""
    ensures NAME_PARAM + name + "\"" != "" && IsFolded(NAME_PARAM + name + "\"")
  {
    FieldLine("Content-Type", TypeBody(mimeType, name));
    assert CONTENT_TYPE == "Content-Type" + ": ";
    assert CHARSET + NAME_PARAM == "; " + ("charset" + "=" + "UTF-8") + "; " + "name" + "=\"";
    RegroupedType(CONTENT_TYPE, mimeType, CHARSET, NAME_PARAM, name, "charset" + "=" + "UTF-8");
  }

  lemma RegroupedType(head: string, mimeType: string, charset: string, second: string, name: string, param: string)
    requires charset + second == "; " + param + "; " + "name" + "=\""
    ensures head + mimeType + charset + (second + name + "\"") ==
      head + (mimeType + ("; " + (param + ("; " + ("name" + "=\"" + (name + "\""))))))
  {
    var q := name + "\"";
    assert head + mimeType + charset + (second + name + "\"") == head + mimeType + (charset + second) + q;
  }

  const ENCODING := "Content-Transfer-Encoding"

  lemma EncodingWords()
    ensures ENCODING_BASE64 == ENCODING + ": " + "base64"
  {
  }

  lemma EightBitWords()
    ensures ENCODING_8BIT == ENCODING + ": " + "8bit"
  {
  }

  lemma EncodingName()
    ensures ':' !in ENCODING && ENCODING != "" && !IsFolded(ENCODING_BASE64) && !IsFolded(ENCODING_8BIT)
  {
  }

  lemma EncodingLines()
    ensures ParseField(ENCODING_BASE64) == Some(Field(ENCODING, "base64"))
    ensures ParseField(ENCODING_8BIT) == Some(Field(ENCODING, "8bit"))
    ensures ENCODING_BASE64 != "" && !IsFolded(ENCODING_BASE64) && ENCODING_8BIT != "" && !IsFolded(ENCODING_8BIT)
  {
    hide *;
    EncodingWords();
    EightBitWords();
    EncodingName();
    FieldLine(ENCODING, "base64");
    FieldLine(ENCODING, "8bit");
    assert |ENCODING_BASE64| > 0 && |ENCODING_8BIT| > 0;
  }

  lemma DispositionLine(name: string)
    ensures ParseField(ATTACHMENT + (FILENAME_PARAM + name + "\"")) ==
      Some(Field("Content-Disposition", QuotedBody("attachment", "filename", name)))
    ensures ATTACHMENT != "" && !IsFolded(ATTACHMENT)
    ensures FILENAME_PARAM + name + "\"" != "" && IsFolded(FILENAME_PARAM + name + "\"")
  {
    hide *;
    ColonFree();
    AttachmentWords();
    FileNameWords();
    FoldedLine(ATTACHMENT, FILENAME_PARAM, "Content-Disposition", "attachment", "filename", name);
  }

  lemma AttachmentHeaderReads(name: string, mimeType: string)
    ensures ParseFields(Unfold(AttachmentHeaderLines(name, mimeType))) == Some([
      Field("Content-Type", TypeBody(mimeType, name)), Field(ENCODING, "base64"),
      Field("Content-Disposition", QuotedBody("attachment", "filename", name))])
    ensures "" !in AttachmentHeaderLines(name, mimeType)
  {
    hide CONTENT_TYPE, CHARSET, NAME_PARAM, ENCODING_BASE64, ATTACHMENT, FILENAME_PARAM, QuotedBody, TypeBody,
      ParseField, ParseFields, Unfold, IsFolded, ENCODING;
    var a, b := CONTENT_TYPE + mimeType + CHARSET, NAME_PARAM + name + "\"";
    var d, e := ATTACHMENT, FILENAME_PARAM + name + "\"";
    TypeLine(mimeType, name);
    EncodingLines();
    DispositionLine(name);
    UnfoldAttachment(a, b, ENCODING_BASE64, d, e);
    ThreeFields(a + b, ENCODING_BASE64, d + e,
                Field("Content-Type", TypeBody(mimeType, name)), Field(ENCODING, "base64"),
                Field("Content-Disposition", QuotedBody("attachment", "filename", name)));
  }

  lemma PlainWords()
    ensures PLAIN_TEXT == "Content-Type" + ": " + ("text/plain" + ("; " + ("charset" + "=" + "UTF-8")))
    ensures PLAIN_TEXT != ""
  {
  }

  lemma PlainTextReads()
    ensures ParseFields(Unfold([PLAIN_TEXT, ENCODING_8BIT])) == Some([
      Field("Content-Type", "text/plain" + ("; " + ("charset" + "=" + "UTF-8"))), Field(ENCODING, "8bit")])
    ensures "" !in [PLAIN_TEXT, ENCODING_8BIT]
  {
    hide *;
    var body := "text/plain" + ("; " + ("charset" + "=" + "UTF-8"));
    PlainWords();
    EncodingLines();
    ColonFree();
    FieldLine("Content-Type", body);
    UnfoldNothing(PLAIN_TEXT, ENCODING_8BIT);
    ThreeFields(PLAIN_TEXT, ENCODING_8BIT, ENCODING_8BIT, Field("Content-Type", body), Field(ENCODING, "8bit"),
                Field(ENCODING, "8bit"));
  }

  lemma PlainContent()
    ensures ParseContent("text/plain" + ("; " + ("charset" + "=" + "UTF-8"))) ==
      Some(Content("text/plain", [UTF8_PARAM]))
  {
    hide ParseContent, ParseParams;
    ContentStep("text/plain", "charset" + "=" + "UTF-8");
    NoParams();
    TokenParam("charset", "UTF-8", "");
    assert "charset" + "=" + "UTF-8" + "" == "charset" + "=" + "UTF-8";
    assert [UTF8_PARAM] + [] == [UTF8_PARAM];
  }

  // ----- Looking fields up -----

  lemma {:induction false} LookupStep(field: Field, rest: seq<Field>, name: string)
    ensures Lookup([field] + rest, name) == if field.name == name then Some(field.body) else Lookup(rest, name)
    ensures Lookup([], name) == None
  {
    assert ([field] + rest)[1..] == rest;
  }

  lemma LookupThree(x: Field, y: Field, z: Field, name: string)
    ensures Lookup([x, y], name) ==
      if x.name == name then Some(x.body) else if y.name == name then Some(y.body) else None
    ensures Lookup([x, y, z], name) ==
      if x.name == name then Some(x.body) else if y.name == name then Some(y.body)
      else if z.name == name then Some(z.body) else None
  {
    hide Lookup;
    LookupStep(x, [y, z], name);
    LookupStep(x, [y], name);
    LookupStep(y, [z], name);
    LookupStep(y, [], name);
    LookupStep(z, [], name);
    assert [x] + [y, z] == [x, y, z] && [y] + [z] == [y, z] && [z] + [] == [z];
    assert [x] + [y] == [x, y] && [y] + [] == [y];
  }

  lemma DistinctNames()
    ensures "Content-Type" != ENCODING && "Content-Type" != "Content-Disposition" && ENCODING != "Content-Disposition"
    ensures "Subject" != "Content-Type" && "MIME-Version" != "Content-Type" && "MIME-Version" != "Subject"
    ensures ENCODING == "Content-Transfer-Encoding"
  {
    assert |ENCODING| == 25;
    assert "MIME-Version"[0] == 'M';
  }

  lemma PartOfTwo(typeBody: string, encoding: string, body: string)
    ensures PartOf([Field("Content-Type", typeBody), Field(ENCODING, encoding)], body) ==
      if ParseContent(typeBody).None? then None
      else Some(Part(ParseContent(typeBody).value, encoding, None, body))
  {
    hide Lookup, ParseContent, ENCODING;
    DistinctNames();
    var x, y := Field("Content-Type", typeBody), Field(ENCODING, encoding);
    LookupThree(x, y, y, "Content-Type");
    LookupThree(x, y, y, ENCODING);
    LookupThree(x, y, y, "Content-Disposition");
  }

  lemma PartOfThree(typeBody: string, encoding: string, disposition: string, body: string)
    ensures PartOf([Field("Content-Type", typeBody), Field(ENCODING, encoding),
                    Field("Content-Disposition", disposition)], body) ==
      if ParseContent(typeBody).None? || ParseContent(disposition).None? then None
      else Some(Part(ParseContent(typeBody).value, encoding, Some(ParseContent(disposition).value), body))
  {
    hide Lookup, ParseContent, ENCODING;
    DistinctNames();
    var x, y := Field("Content-Type", typeBody), Field(ENCODING, encoding);
    var z := Field("Content-Disposition", disposition);
    LookupThree(x, y, z, "Content-Type");
    LookupThree(x, y, z, ENCODING);
    LookupThree(x, y, z, "Content-Disposition");
  }
}
