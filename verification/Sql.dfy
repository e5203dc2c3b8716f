/** The two statement shapes the migration script sends, read from their text and executed. */
module Sql {
  import opened Text

  datatype Column = Column(name: string, decl: string)
  // Every column of the table has an entry; None is NULL.
  type Row = map<string, Option<string>>
  // What a table demands of its rows: its columns, the column that is its primary key, and for some
  // columns the only texts allowed. The last two may also come from constraints on the table.
  datatype Schema = Schema(columns: seq<Column>, key: Option<string>, checks: map<string, set<string>>)
  // The rows by the value of their primary key.
  datatype Table = Table(schema: Schema, rows: map<string, Row>)
  type Db = map<string, Table>

  datatype Statement =
    | CreateTable(table: string, columns: seq<Column>)
    | InsertOrReplace(table: string, names: seq<string>, marks: seq<string>)

  // ----- Text of a statement -----

  const CREATE := "CREATE TABLE IF NOT EXISTS "
  const INSERT := "INSERT OR REPLACE INTO "
  const VALUES := " VALUES ("

  function DropSpace(s: string): (text: string)
  {
    if s != "" && s[0] == ' ' then s[1..] else s
  }

  // The items of a list, between commas, each without a space in front.
  function Items(s: string): (items: seq<string>)
  {
    DropSpaces(Split(s, ','))
  }

  function DropSpaces(pieces: seq<string>): (items: seq<string>)
    ensures |items| == |pieces|
  {
    if pieces == [] then [] else [DropSpace(pieces[0])] + DropSpaces(pieces[1..])
  }

  // A name, a space and a list in parentheses: the name, the list, and what follows it.
  function NameAndList(s: string): (r: Option<(string, string, string)>)
  {
    var i := IndexOf(s, '(');
    if i == |s| || i == 0 || s[i - 1] != ' ' then None
    else
      var rest := s[i + 1..];
      var j := IndexOf(rest, ')');
      if j == |rest| then None else Some((s[..i - 1], rest[..j], rest[j + 1..]))
  }

  function ParseColumn(s: string): (column: Column)
  {
    var i := IndexOf(s, ' ');
    if i == |s| then Column(s, "") else Column(s[..i], s[i + 1..])
  }

  function ParseColumns(items: seq<string>): (columns: seq<Column>)
  {
    if items == [] then [] else [ParseColumn(items[0])] + ParseColumns(items[1..])
  }

  function ParseCreate(s: string): (r: Option<Statement>)
  {
    var (table, list, rest) :- NameAndList(s);
    if rest == "" then Some(CreateTable(table, ParseColumns(Items(list)))) else None
  }

  function ParseInsert(s: string): (r: Option<Statement>)
  {
    var (table, names, rest) :- NameAndList(s);
    if !(VALUES <= rest) then None
    else
      var after := rest[|VALUES|..];
      var j := IndexOf(after, ')');
      if j + 1 != |after| then None else Some(InsertOrReplace(table, Items(names), Items(after[..j])))
  }

  function Parse(sql: string): (r: Option<Statement>)
  {
    if CREATE <= sql then ParseCreate(sql[|CREATE|..])
    else if INSERT <= sql then ParseInsert(sql[|INSERT|..])
    else None
  }

  // ----- Execution; None is an error that is raised and changes nothing -----

  predicate At(s: string, t: string, i: nat)
  {
    i + |t| <= |s| && s[i..i + |t|] == t
  }

  predicate Contains(s: string, t: string)
  {
    exists i :: 0 <= i <= |s| && At(s, t, i)
  }

  predicate NotNull(c: Column) { Contains(c.decl, "NOT NULL") }

  function KeyName(columns: seq<Column>): (r: Option<string>)
  {
    if columns == [] then None
    else if Contains(columns[0].decl, "PRIMARY KEY") then Some(columns[0].name)
    else KeyName(columns[1..])
  }

  // What a creation by column declarations alone demands.
  function SchemaOf(columns: seq<Column>): (schema: Schema)
  {
    Schema(columns, KeyName(columns), map[])
  }

  // The columns with nothing in them.
  function Blank(columns: seq<Column>): (row: Row)
    ensures forall n :: n in row ==> row[n] == None
  {
    if columns == [] then map[] else Blank(columns[1..])[columns[0].name := None]
  }

  // Names are bound to values position by position.
  function Bind(row: Row, names: seq<string>, values: seq<string>): (r: Row)
    requires |names| == |values|
  {
    if names == [] then row
    else
      var n := |names| - 1;
      Bind(row, names[..n], values[..n])[names[n] := Some(values[n])]
  }

  function Execute(db: Db, sql: string, values: seq<string>): (r: Option<Db>)
  {
    match Parse(sql)
    case None => None
    case Some(CreateTable(table, columns)) =>
      if values != [] then None
      else if table in db then Some(db)
      else Some(db[table := Table(SchemaOf(columns), map[])])
    case Some(InsertOrReplace(table, names, marks)) =>
      if table !in db || |names| != |marks| || |marks| != |values| then None
      else if exists m :: m in marks && m != "?" then None
      else Insert(db, table, names, values)
  }

  // Columns that must not be NULL are not, the primary key neither, and checks are met.
  predicate Admits(s: Schema, row: Row)
  {
    Complete(s.columns, row) && s.key.Some? && HasValue(row, s.key.value) && Checked(s, row)
  }

  predicate HasValue(row: Row, name: string) { name in row && row[name].Some? }

  predicate Complete(columns: seq<Column>, row: Row)
  {
    forall c :: c in columns && NotNull(c) ==> HasValue(row, c.name)
  }

  predicate Checked(s: Schema, row: Row)
  {
    forall n :: n in s.checks && HasValue(row, n) ==> row[n].value in s.checks[n]
  }

  // The row with the same primary key, if any, is replaced.
  function Stored(db: Db, table: string, row: Row): (after: Db)
    requires table in db && Admits(db[table].schema, row)
  {
    var t := db[table];
    db[table := t.(rows := t.rows[row[t.schema.key.value].value := row])]
  }

  // Columns not named are NULL.
  function Insert(db: Db, table: string, names: seq<string>, values: seq<string>): (after: Option<Db>)
    requires table in db && |names| == |values|
  {
    var schema := db[table].schema;
    var blank := Blank(schema.columns);
    var row := Bind(blank, names, values);
    if (exists n :: n in names && n !in blank) || !Admits(schema, row) then None
    else Some(Stored(db, table, row))
  }

  // ----- The texts the statements are written as -----

  function ColumnTexts(columns: seq<Column>): (texts: seq<string>)
  {
    if columns == [] then [] else [columns[0].name + " " + columns[0].decl] + ColumnTexts(columns[1..])
  }

  function CreateText(table: string, columns: seq<Column>): (text: string)
  {
    CREATE + table + " (" + Join(ColumnTexts(columns), ", ") + ")"
  }

  function InsertText(table: string, names: seq<string>, marks: seq<string>): (text: string)
  {
    INSERT + table + " (" + Join(names, ", ") + ")" + VALUES + Join(marks, ", ") + ")"
  }

  // ----- Reading a text back -----

  // Free of the characters that structure a statement.
  ghost predicate Plain(s: string)
  {
    s != "" && s[0] != ' ' && ',' !in s && '(' !in s && ')' !in s
  }

  ghost predicate AllPlain(items: seq<string>)
  {
    forall i :: 0 <= i < |items| ==> Plain(items[i])
  }

  lemma {:induction false} JoinPlain(items: seq<string>)
    requires AllPlain(items)
    ensures '(' !in Join(items, ", ") && ')' !in Join(items, ", ")
  {
    if |items| <= 1 {
    } else {
      JoinPlain(items[1..]);
    }
  }

  lemma {:induction false} SplitList(items: seq<string>)
    requires AllPlain(items) && |items| >= 1
    ensures Items(Join(items, ", ")) == items
    ensures Items(" " + Join(items, ", ")) == items
  {
    var list := Join(items, ", ");
    if |items| == 1 {
      assert Plain(items[0]);
      SplitWhole(list, ',');
      SplitWhole(" " + list, ',');
      OneItem(items[0]);
    } else {
      var rest := Join(items[1..], ", ");
      SplitList(items[1..]);
      assert Plain(items[0]);
      assert list == items[0] + [','] + (" " + rest);
      assert " " + list == (" " + items[0]) + [','] + (" " + rest);
      SplitFirst(items[0], ',', " " + rest);
      SplitFirst(" " + items[0], ',', " " + rest);
      FirstItem(items[0], Split(" " + rest, ','));
      assert items == [items[0]] + items[1..];
    }
  }

  lemma OneItem(item: string)
    requires Plain(item)
    ensures DropSpaces([item]) == [item] && DropSpaces([" " + item]) == [item]
  {
    FirstItem(item, []);
    assert [item] + [] == [item] && [" " + item] + [] == [" " + item];
  }

  lemma FirstItem(item: string, rest: seq<string>)
    requires Plain(item)
    ensures DropSpaces([item] + rest) == [item] + DropSpaces(rest)
    ensures DropSpaces([" " + item] + rest) == [item] + DropSpaces(rest)
  {
    assert ([item] + rest)[1..] == rest && ([" " + item] + rest)[1..] == rest;
    assert (" " + item)[1..] == item;
  }

  lemma NameAndListReads(table: string, list: string, rest: string)
    requires '(' !in table && ')' !in list
    ensures NameAndList(table + " (" + list + ")" + rest) == Some((table, list, rest))
  {
    var s := table + " (" + list + ")" + rest;
    var i := |table| + 1;
    assert s[..i] == table + " " && s[i] == '(' && s[i + 1..] == list + ")" + rest;
    IndexOfAt(s, '(', i);
    var after := list + ")" + rest;
    assert after[..|list|] == list && after[|list| + 1..] == rest;
    IndexOfAt(after, ')', |list|);
    assert s[..i - 1] == table;
  }

  ghost predicate Named(columns: seq<Column>)
  {
    forall i :: 0 <= i < |columns| ==>
      Plain(columns[i].name) && ' ' !in columns[i].name && ',' !in columns[i].decl && '(' !in columns[i].decl &&
      ')' !in columns[i].decl
  }

  lemma ColumnReads(c: Column)
    requires Plain(c.name) && ' ' !in c.name && ',' !in c.decl && '(' !in c.decl && ')' !in c.decl
    ensures ParseColumn(c.name + " " + c.decl) == c && Plain(c.name + " " + c.decl)
  {
    var text := c.name + " " + c.decl;
    IndexOfAt(text, ' ', |c.name|);
    assert text[..|c.name|] == c.name && text[|c.name| + 1..] == c.decl;
  }

  lemma {:induction false} ColumnsRead(columns: seq<Column>)
    requires Named(columns)
    ensures |ColumnTexts(columns)| == |columns| && AllPlain(ColumnTexts(columns))
    ensures ParseColumns(ColumnTexts(columns)) == columns
  {
    if columns == [] {
    } else {
      var c := columns[0];
      ColumnsRead(columns[1..]);
      ColumnReads(c);
      hide Plain, ParseColumn;
      assert ColumnTexts(columns)[1..] == ColumnTexts(columns[1..]);
      assert columns == [c] + columns[1..];
    }
  }

  lemma CreateReads(table: string, columns: seq<Column>)
    requires '(' !in table && Named(columns) && columns != []
    ensures Parse(CreateText(table, columns)) == Some(CreateTable(table, columns))
  {
    hide Named, NameAndList, Items, ParseColumns, AllPlain, Join, CREATE;
    var texts := ColumnTexts(columns);
    var list := Join(texts, ", ");
    ColumnsRead(columns);
    JoinPlain(texts);
    SplitList(texts);
    NameAndListReads(table, list, "");
    var after := table + " (" + list + ")";
    assert CreateText(table, columns) == CREATE + after;
    assert (CREATE + after)[|CREATE|..] == after && after + "" == after;
  }

  lemma InsertTail(table: string, list: string, last: string)
    requires '(' !in table && ')' !in list && ')' !in last
    ensures ParseInsert(table + " (" + list + ")" + (VALUES + (last + ")"))) ==
      Some(InsertOrReplace(table, Items(list), Items(last)))
  {
    hide Items, NameAndList, VALUES;
    var rest := VALUES + (last + ")");
    NameAndListReads(table, list, rest);
    assert rest[|VALUES|..] == last + ")";
    assert (last + ")")[..|last|] == last;
    IndexOfAt(last + ")", ')', |last|);
  }

  lemma InsertKeyword(after: string)
    ensures Parse(INSERT + after) == ParseInsert(after)
  {
    hide ParseInsert;
    assert (INSERT + after)[|INSERT|..] == after;
    assert CREATE[0] == 'C' && (INSERT + after)[0] == 'I';
  }

  lemma InsertReads(table: string, names: seq<string>, marks: seq<string>)
    requires '(' !in table && AllPlain(names) && AllPlain(marks) && names != [] && marks != []
    ensures Parse(InsertText(table, names, marks)) == Some(InsertOrReplace(table, names, marks))
  {
    hide Parse, ParseInsert, Items, AllPlain, Join, INSERT, VALUES;
    var list, last := Join(names, ", "), Join(marks, ", ");
    JoinPlain(names);
    JoinPlain(marks);
    SplitList(names);
    SplitList(marks);
    InsertTail(table, list, last);
    var after := table + " (" + list + ")" + (VALUES + (last + ")"));
    InsertKeyword(after);
    assert INSERT + table + " (" + list + ")" + VALUES + last + ")" == INSERT + after;
  }
}
