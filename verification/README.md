# Verified models of three parts of Datovka

Three pieces of the program are modelled and their promises proved for all inputs:

* **Mail composing and Base64** (`src/common.cpp`, with its caller in `src/gui/datovka.cpp`). Three functions append to
  one growing message buffer; together they print a multipart message with folded headers, a fixed first part and
  attachments wrapped at 60 columns. `Email.dfy` models them as methods on the string object they edit in place.
  `Mime.dfy` is a reader of multipart messages written from RFC 2046 and RFC 2045 alone, and `EmailHeaders.dfy`,
  `EmailLaws.dfy`, `EmailSend.dfy` prove that it inverts the writer. `Base64.dfy` holds the codec of section 4 of
  RFC 4648 (encoder, strict decoder, and the tolerant bit-buffer decoder the program uses) and the size prediction;
  `Base64Table.dfy` compares the encoder with the standard's table bit by bit;
  `Utf.dfy` holds UTF-16, UTF-8 (section 3 of RFC 3629) and the two string conversions built on them.
* **Version comparison** (`src/about.cpp`). `Regex.dfy` models the matching engine: greedy backtracking, leftmost match,
  `$` also before a last line feed, with an engine-free language of expressions beside it. `Version.dfy` models the four
  deletions, the unanchored match, the parser and the comparison; `VersionText.dfy` and `VersionLaws.dfy` prove what
  they mean, line feeds included, and `VersionShape.dfy` says it character by character.
* **Shelf migration** (`shelf_converter/process_dumbdbm.py`). The script builds statement texts and parallel value lists
  and commits after every statement. `Sql.dfy` reads the statement texts back and executes them; `Migration.dfy` is the
  script on a database connection that records every committed state; `MigrationRows.dfy` says what one
  statement does to a table with any columns, `MigrationSteps.dfy` and `MigrationLaws.dfy` prove that runs refine a map
  override and what crashes do, and `MigrationTables.dfy` and `MigrationSchemas.dfy` which entries the script's own
  tables, those of the application (`src/io/db_tables.cpp`), and tables that lack a column take. `MigrationTexts.dfy`
  pins statements, columns and cells word by word.

`Text.dfy`, `Decimal.dfy`, `Int32.dfy` and `QString.dfy` (module `Strings`) are shared.

Where a promise is false of the code, the code is kept and the exact condition is proved:

* A message reads back as composed if and only if neither the boundary nor any attachment name holds a quote or a
  backslash (nothing is escaped) and the boundary is not empty and not a single space (the signature mark `-- ` would
  read as a delimiter). The boundaries the program makes always qualify, although they are often not legal boundaries
  in the sense of section 5.1.1 of RFC 2046, because the random string draws on characters such as `#` and `@`.
* The size prediction is right if and only if the data has at most 536870910 bytes; beyond, three times the encoded
  size no longer fits the 32-bit int. The program's own limit of 50000000 bytes (`src/common.h:41`) is well below.
* A stored string survives Base64 if and only if it is well-formed UTF-16 without U+0000 that does not start with U+FEFF.
* The version normaliser leaves the first run of digits and dots, trimmed, if and only if no line feed (other than a
  last one) follows the character that ends the run; under the same condition it is idempotent.
* Text behind a version string on one line is ignored in every comparison if and only if the string has a digit or dot
  or the text holds no version; with line feeds, also what is in the way behind the first run must stay so.
* The header comment (`src/about.h:42-46`) gives -2 for an unsuitable first string; the code returns 2 when the first
  string has a component too large and the second no version at all. Exchanging the arguments negates the result except
  for two strings unsuitable in the same way.
* The migration does not succeed whenever every entry converts: the database may hold the tables already, since it is the
  application's own (`src/settings/preferences.cpp:43`). The script succeeds if and only if those tables take both rows
  of every key. That is the same as converting for the tables the script creates; for those the application creates,
  both flags must also come out as 0 or 1. It can stop between the two commits of a key. That the rows go to the keys of
  the shelf needs the column `key` to be the primary key of both tables.

Each of these has a lemma with an input at which the plainer promise fails: `EmailLaws.QuoteInNameIsLost`,
`EmailLaws.BoundaryLikeSignature`, `EmailSend.MadeIllegal`, `Base64.PredictionWraps`, `TextCodec.StringsLost`,
`VersionLaws.LineFeedCanHide`, `VersionLaws.DecorationCanCount`, `VersionLaws.SecondCanBeBlamed`,
`MigrationSchemas.NarrowTable`, `MigrationSchemas.MissingDateColumn` and `MigrationSchemas.KeyedOtherwise`.

Assumed behaviour of the string library, whose source is not part of this model: `toUtf8` writes a question mark for a
lone surrogate; `fromUtf8` stops at a zero byte, skips one leading byte order mark, and writes U+FFFD for a byte it
cannot decode; `fromBase64` skips characters outside the alphabet and drops leftover bits; removing all matches of an
expression looks for them in the unmodified string, from left to right; `.` matches anything but a line feed.
A 32-bit product too large for the type wraps around in two's complement; the language leaves it undefined, so for data
beyond the bound the size prediction is shown wrong under this assumption only.
Lines of a message end with a single line feed, as the code writes them.

Texts that come from outside (data type names, the translated signature line, the version macro, the random string and
the time in a boundary) are parameters. That the texts `0` and `1` meet the application's check on its two flags is
assumed of the database, which turns them into numbers first. The commands of a migration run are each followed by a commit; a crash leaves
behind what the last commit left, so the states a crash can leave are exactly those recorded in `Database.history`.

## Model

| member | source | states |
|---|---|---|
| `Email.CreateEmailMessage` | src/common.cpp:74-97 | whatever the buffer held, it then holds exactly the header, the first delimiter and the fixed part, given word by word |
| `Email.AddAttachmentToEmailMessage` | src/common.cpp:33-58 | the buffer is extended, nothing earlier changed, by one delimiter line, the five header lines, given word by word, an empty line and the payload in chunks of 60 |
| `Email.AppendWrapped` | src/common.cpp:51-56 | the character loop appends each character, with a line break before every sixtieth, and changes nothing earlier |
| `Email.FinishEmailMessage` | src/common.cpp:99-103 | the buffer is extended by the closing delimiter line |
| `Email.EmittedIsWrapped` | src/common.cpp:51-57 | the character loop and the line break after it write an empty line and then the payload cut every 60 characters |
| `EmailLaws.ChunksLaw` | src/common.cpp:51-57 | for any payload, all chunks but the last have 60 characters, the last 1 to 60; there are ceil(n/60), with one line break each |
| `EmailLaws.ChunksLossless` | src/common.cpp:51-57 | the chunks of any payload put together are the payload, and their lines add nothing but line breaks |
| `EmailLaws.WrapLaw` | src/common.cpp:51-57 | for any payload the loop adds n + ceil(n/60) + 1 characters, starts with the empty line even for n = 0, and loses neither characters nor decoded bytes |
| `EmailLaws.AttachmentClean` | src/common.cpp:43-57 | for any boundary, no header or body line of an attachment starts with the delimiter |
| `EmailLaws.AddStep` | src/common.cpp:43-57 | from any buffer at all, adding an attachment appends exactly one part and leaves the earlier ones as they were |
| `EmailLaws.FinishStep` | src/common.cpp:99-103 | after finishing any buffer, a reader gets exactly the lines before the end line, or those before an earlier closing delimiter |
| `EmailLaws.OpenMessage` | src/common.cpp:33-103 | after creation and k additions no line closes the message, and a reader finds the header and exactly k+1 parts, each as it was written, if and only if the boundary is not degenerate; finishing closes it and keeps its lines |
| `EmailLaws.MessageDelimiters` | src/common.cpp:33-103 | the delimiter lines of a message with n attachments are n+1 opening ones and a closing one, plus the signature mark exactly for the two degenerate boundaries |
| `EmailLaws.ComposedMailReads` | src/common.cpp:33-103 | the reader returns the same subject, boundary, fixed part, and every attachment's type, name and payload in order, if and only if boundary and names need no escaping and the boundary is not degenerate |
| `EmailLaws.FixedPartReads` | src/common.cpp:90-96 | the fixed part a reader finds, its type, encoding and three signature lines given word by word |
| `EmailLaws.QuoteInNameIsLost` | src/common.cpp:45-49 | an attachment name with a quote with which the message does not read back |
| `EmailLaws.BoundaryLikeSignature` | src/common.cpp:94 | for the empty boundary and the single space no message reads back, as the signature mark is taken for a delimiter |
| `EmailSend.LegalIsGood` | src/common.cpp:84-89 | every boundary legal by RFC 2046 meets that condition |
| `EmailSend.MadeBoundary` | src/gui/datovka.cpp:6228-6231 | every boundary the program makes is five dashes, the random string, an underscore and the time; it meets that condition, and is legal if and only if the random string holds only legal characters |
| `EmailSend.MadeIllegal` | src/gui/datovka.cpp:6228-6231 | a random string whose boundary reads back although it is not legal |
| `EmailSend.SentIsReceived` | src/gui/datovka.cpp:6237-6249 | decoding the attachments of the message gives back the files - same names, same bytes, same order - if and only if no name holds a quote or a backslash |
| `EmailSend.SendAttachmentsEmail` | src/gui/datovka.cpp:6227-6249 | the caller's loop over the attachments yields that message, from which the files are received under the same condition |
| `Base64.StrictInvertsEncode` | src/common.cpp:105-113 | the strict decoder inverts the encoder for all three paddings |
| `Base64.EncodeInvertsStrict` | src/common.cpp:105-113 | every text the strict decoder accepts is the encoding of what it decodes to |
| `Base64.DecodeInvertsEncode` | src/common.cpp:107 | the tolerant decoder inverts the encoder |
| `Base64.DecodeIgnoresLineBreaks` | src/common.cpp:40-57 | line breaks inside a text do not change what it decodes to |
| `Base64.EncodeIsTheSameNumber` | src/common.cpp:112 | the six-bit digits and the bytes write the same number up to the filler bits: the encoding said without groups |
| `Base64.EncodeShape` | src/common.cpp:65-69 | four characters for every started group of three bytes, padding characters exactly at the end |
| `Base64Table.EncodeIsTable` | src/common.cpp:112 | every character before the padding is the entry of Table 1 of RFC 4648 for six bits of the data, in order |
| `Base64Table.AlphabetIs` | src/common.cpp:107 | the characters that carry bits are those of the table, each the bits of its place |
| `Base64.RealSize` | src/common.cpp:60-72 | returns the size of the data for every encoding of up to 536870910 bytes, by the loop over the last three characters and wrapping 32-bit arithmetic |
| `Base64.PredictionExact` | src/common.cpp:60-72 | the prediction is right if and only if the data has at most 536870910 bytes |
| `Base64.PredictionWraps` | src/common.cpp:60-72 | for data one byte above the bound the prediction is -536870913 |
| `Base64.PredictionOfText` | src/common.cpp:60-72 | the same for any text that is correct Base64 |
| `Utf.DecodeInvertsEncodeScalar` | src/common.cpp:105-113 | a UTF-8 sequence decodes to the scalar value it encodes, whatever follows |
| `Utf.EncodeInvertsDecodeScalar` | src/common.cpp:105-113 | only the shortest sequence of a scalar value is accepted |
| `Utf.EncodedBits` | src/common.cpp:112 | how many bytes a scalar value takes, the range of each and the bits they carry, by section 3 of RFC 3629 |
| `Utf.PairsCount` | src/common.cpp:105-113 | the surrogate pairs count through U+10000 to U+10FFFF one after the other |
| `Utf.ThroughUtf8` | src/common.cpp:105-113 | for every string, what is left of it after UTF-8 and back |
| `TextCodec.Base64Keeps` | src/common.cpp:105-113 | for every string, decoding its encoding gives what UTF-8 keeps of it |
| `TextCodec.Base64RoundTrip` | src/common.cpp:105-113 | fromBase64(toBase64(s)) is s if and only if s is well-formed, holds no U+0000 and does not start with U+FEFF |
| `TextCodec.StoredIs` | src/common.cpp:110-113 | what is stored is the Base64 text of the UTF-8 bytes, character by character, and nothing else |
| `TextCodec.ReadIs` | src/common.cpp:105-108 | any stored seven-bit text comes back as the UTF-8 reading of the bytes it decodes to |
| `TextCodec.StrayByte` | src/common.cpp:107 | an undecodable byte comes back as U+FFFD |
| `TextCodec.StringsLost` | src/common.cpp:105-113 | a zero, a byte order mark and a lone surrogate do not come back |
| `Regex.MatchIsFit` | src/about.cpp:69-76 | the backtracking engine finds a match at a position exactly when the language of the expression has one there |
| `Version.StripVersionString` | src/about.cpp:67-79 | the string is edited in place by the four deletions; true exactly if the unanchored match is as long as what is left |
| `VersionText.StrippedIsTrimmedRun` | src/about.cpp:69-72 | for every string, the first run of digits and dots without dots at its ends is what is left, if and only if no line feed is in the way behind it |
| `VersionLaws.WholeIsTriple` | src/about.cpp:74-78 | the match and length check succeed if and only if the text is digits.digits.digits |
| `VersionLaws.StripReads` | src/about.cpp:67-142 | stripping and parsing agree with reading the three numbers off the first run, for every string |
| `Version.FromString` | src/about.cpp:118-142 | the loop over the pieces gives the three numbers, -1 for one that does not fit, all -1 unless there are three |
| `Version.CompareVersionStrings` | src/about.cpp:151-193 | the whole pipeline on two local copies, with its early returns in order |
| `VersionLaws.CompareMeans` | src/about.cpp:151-193 | for every two strings, the result by what each says: which one is blamed, or the lexicographic order of the triples |
| `VersionShape.SuitableIff` | src/about.cpp:67-142 | character by character, for every string: it is suitable if and only if it is text without digits and dots, dots, three numerals of at most 2147483647 with dots between them, dots, and text that starts with neither and holds no line feed between its ends |
| `VersionShape.FirstRunIs` | src/about.cpp:69-70 | every character of the first run is a digit or a dot, none before it is, nor the one behind it |
| `VersionShape.WrappedReads` | src/about.cpp:67-142 | a version in whatever such text it is wrapped compares with every string as it does bare |
| `VersionShape.VersionsCompare` | src/about.cpp:151-193 | two such versions compare by the first numeral in which they differ |
| `VersionShape.ParsedIs` | src/about.cpp:118-142 | a text parses to a version number if and only if it is three such numerals, and then to their values |
| `VersionShape.TenAfterNine` | src/about.cpp:151-193 | 4.10.0 comes after 4.9.3 followed by other text |
| `Decimal.ValueIsWeighted` | src/about.cpp:118-142 | every digit counts ten times what it counts one place further right |
| `VersionLaws.ReturnContract` | src/about.cpp:151-193 | -1, 0 or 1 if and only if both are suitable; exactly when -2 and when 2 |
| `VersionLaws.Exchange` | src/about.cpp:151-193 | exchanging the arguments negates the result if and only if they are not unsuitable in the same way |
| `VersionLaws.OrderLaws` | src/about.cpp:98-116 | reflexive, transitive, total, 0 exactly for equal triples, which are interchangeable |
| `VersionLaws.StrippingAgain` | src/about.cpp:69-72 | stripping twice is stripping once if and only if no line feed was in the way |
| `VersionLaws.SameForAll` | src/about.cpp:151-193 | two strings compare alike with every string if and only if they say the same |
| `VersionLaws.DecorationMatters` | src/about.cpp:67-79 | for all strings, line feeds included: a prefix without digits and dots never matters; exactly when text behind the string, starting with neither, changes no comparison |
| `VersionLaws.DecorationIgnored` | src/about.cpp:67-79 | on one line, such text around a string changes no comparison if and only if the string has a digit or dot or the text behind it holds no version |
| `VersionLaws.NumeralsRead` | src/about.cpp:67-142 | three dotted numerals stay as they are and read as their values |
| `VersionLaws.LeadingZerosIgnored` | src/about.cpp:118-142 | zeros put in front of any of the three numerals change neither what the string says nor any comparison |
| `VersionLaws.PrintedReads` | src/about.cpp:67-142 | three numbers printed with dots parse back; a component above 2147483647 gives a null version |
| `VersionLaws.DecorationCanCount` | src/about.cpp:67-79 | an input where text behind a string changes the result |
| `VersionLaws.LineFeedCanHide` | src/about.cpp:70 | an input where a line feed hides the version and a second stripping differs from the first |
| `VersionLaws.SecondCanBeBlamed` | src/about.h:42-46 | an input whose first string is unsuitable although the result is 2 |
| `Sql.CreateReads` | shelf_converter/process_dumbdbm.py:67-91 | the joined text of a table creation reads back as its table and columns |
| `Sql.InsertReads` | shelf_converter/process_dumbdbm.py:122-132 | the joined text of an insertion reads back as its table, column list and question marks |
| `Migration.CreateAccountInfo` | shelf_converter/process_dumbdbm.py:67-79 | the loop over all but the last column writes the joined column list; executed and committed once |
| `Migration.CreatePasswordExpirationDate` | shelf_converter/process_dumbdbm.py:82-91 | the same for the two columns of the second table |
| `Migration.MigrateAccountInfo` | shelf_converter/process_dumbdbm.py:108-129 | the inner loop keeps the three lists aligned; one statement is executed and committed, or an exception changes nothing |
| `Migration.MigratePasswordDate` | shelf_converter/process_dumbdbm.py:131-149 | the same for the expiration date, which is left out when there is none |
| `Migration.Migrate` | shelf_converter/process_dumbdbm.py:94-149 | the run commits exactly the specified sequence of states, in the order of the keys, up to the first exception |
| `MigrationRows.BindGathered` | shelf_converter/process_dumbdbm.py:109-120 | binding the collected lists position by position gives each present attribute its own text and touches nothing else, whatever the table |
| `MigrationRows.RowExecutes` | shelf_converter/process_dumbdbm.py:108-129 | the statement text, executed on any database, stores the row made from the entry alone, exactly when every attribute converts, every value has a column, and the table's not-null columns, key and checks are satisfied; otherwise it fails |
| `MigrationRows.OwnTakes` | shelf_converter/process_dumbdbm.py:108-129 | a table the script creates takes a row exactly when its not-null columns get a value, and stores it whole |
| `MigrationTables.AccountDescribed` | shelf_converter/process_dumbdbm.py:38-64 | the 25 columns have different plain names and the first is the primary key |
| `MigrationTables.AccountSufficient` | shelf_converter/process_dumbdbm.py:38-64 | the only required attribute of an account is dbID |
| `MigrationLaws.StateAfter` | shelf_converter/process_dumbdbm.py:94-149 | with tables keyed by `key`, every committed state of a run over any keys of any shelf: after 2+2i commits the first i keys are in both tables, after one more the next key has its account but not its date, up to the first row that is not taken |
| `MigrationLaws.CrashSafety` | shelf_converter/process_dumbdbm.py:94-149 | with tables keyed by `key`, after any number of runs over a shelf, each over any keys and cut off anywhere by a crash or a row that is not taken, the committed state is the start with the new accounts of some keys and the new dates of some of these, never a date without its account |
| `MigrationLaws.CrashConvergence` | shelf_converter/process_dumbdbm.py:94-149 | with tables keyed by `key` that take every row, one complete run after any cut-off runs leaves exactly what an undisturbed run leaves: the old tables overridden at every key, whatever the key order, even if entries were repaired or added in between |
| `MigrationLaws.RunLeaves` | shelf_converter/process_dumbdbm.py:94-149 | with tables keyed by `key`, whatever the shelf, the state a run ends in, and that it commits only states part of the way |
| `MigrationLaws.ConvertShelf` | shelf_converter/process_dumbdbm.py:94-149 | the script from opening the database on succeeds if and only if the tables take both rows of every key, whatever tables there are; if `key` is their primary key, the old tables are then overridden at every key, and otherwise at the keys before the first bad one |
| `MigrationLaws.DoneRows` | shelf_converter/process_dumbdbm.py:122-149 | in account_info and password_expiration_date, by these names: new rows at the migrated keys, old rows at all other keys; other tables untouched |
| `MigrationLaws.AccountCells` | shelf_converter/process_dumbdbm.py:109-120 | cell by cell, in any table that takes the account, the text of a present attribute and NULL for an absent one and for a column unknown to the script, so no old value is kept |
| `MigrationTexts.StoredCells` | shelf_converter/process_dumbdbm.py:37-64 | the stored row by column name and value: a flag that is True is 1 and one that is False is 0, a text is itself, a number its decimal numeral, an absent attribute NULL |
| `MigrationTexts.ConvertibleIs` | shelf_converter/process_dumbdbm.py:109-120 | an entry converts if and only if it has all 24 attributes, a box identifier, and flags that are absent, truth values, numbers or digits |
| `MigrationTexts.CreateTexts` | shelf_converter/process_dumbdbm.py:67-91 | the two creation statements, word by word |
| `MigrationTexts.AccountText` | shelf_converter/process_dumbdbm.py:122-129 | the statement of an account, word by word around the joined names and marks |
| `MigrationTexts.DateText` | shelf_converter/process_dumbdbm.py:131-149 | the statement of a date, word by word |
| `MigrationTexts.FromEmpty` | shelf_converter/process_dumbdbm.py:94-149 | from an empty database, a complete run leaves exactly the tables account_info and password_expiration_date with the listed columns, in both exactly the keys of the shelf, each with its account and its date |
| `MigrationTexts.ConvertNew` | shelf_converter/process_dumbdbm.py:94-149 | the script with a new database file leaves just that if and only if every entry converts |
| `MigrationLaws.StopsAtFirst` | shelf_converter/process_dumbdbm.py:99-149 | with tables keyed by `key`, a run stops at the first key with a row that is not taken; the keys before it are migrated, and its account if only its date is not taken |
| `MigrationLaws.CompletesIff` | shelf_converter/process_dumbdbm.py:99-149 | on any database a run completes if and only if both rows of every key are taken |
| `MigrationSchemas.OwnTables` | shelf_converter/process_dumbdbm.py:38-91 | the tables the script creates take exactly the entries that convert |
| `MigrationSchemas.FreshTables` | shelf_converter/process_dumbdbm.py:94-149 | with no such tables before, every row is taken if and only if every entry converts |
| `MigrationSchemas.ApplicationTables` | src/io/db_tables.cpp:57-98 | the tables the application creates take exactly the entries that convert and whose two flags come out as 0 or 1 |
| `MigrationTexts.ApplicationIs` | src/io/db_tables.cpp:57-98 | the columns, key and checks of those tables, word by word |
| `MigrationSchemas.ApplicationRun` | src/io/db_tables.cpp:57-220 | with both tables from the application, `key` is the primary key of both, and every row is taken if and only if every entry converts and has such flags |
| `MigrationSchemas.FlagMeans` | shelf_converter/process_dumbdbm.py:62-63 | a flag that is absent or a truth value always fits, a number only if it is 0 or 1 |
| `MigrationSchemas.MissingColumn` | shelf_converter/process_dumbdbm.py:108-129 | an entry with an attribute the account table has no column for stops the run |
| `MigrationSchemas.NarrowTable` | shelf_converter/process_dumbdbm.py:94-149 | a database and a shelf whose entry converts although the script fails |
| `MigrationSchemas.MissingDateColumn` | shelf_converter/process_dumbdbm.py:131-149 | a date without a column stops the run between the two commits of its key |
| `MigrationSchemas.KeyedOtherwise` | shelf_converter/process_dumbdbm.py:122-129 | with another primary key the row is stored under the text of that attribute, so users who share it overwrite each other |

## Left out

- Version.ToInt: reads decimal digits only; the sign and white space the library conversion accepts cannot reach it after stripping.
- Migration.Coerced: int() of a text value reads decimal digits only and fails on anything else, where the language also takes signs and white space; an object that is no text, number or truth value counts as true and converts to no number.
- Utf.FromUtf8: the handling of zero bytes, a byte order mark and undecodable bytes is assumed of the string library, not proved of it.
- Sql.Execute: reads the two statement shapes the script sends and stores texts; type affinity, defaults, constraints other than not null, a primary key column and allowed values, tables without a primary key, and other statements of the database are not modelled; column names are compared exactly.
- EmailLaws.ComposedMailReads: assumes one-line subject, boundary, names and signature texts, payloads of Base64 characters, and type names without a semicolon; the code checks none of this.
- Messages are read with line feed line ends, header names compared exactly, and no encoded words or continuations of parameters.
- The library's own version class of newer releases; the fallback class of the repository is modelled.
- `libraryDependencies`, logging, translation, the HTML macros of `src/common.h`, temporary files and opening the mail program.
- Opening the shelf and the database, unpickling, command-line checks, and the certificate finders beside the migration script.
- The other two callers that compose messages, which differ only in where payload and name come from.
