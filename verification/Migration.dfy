/** The migration script shelf_converter/process_dumbdbm.py: the entries of a shelf are upserted into
    two tables, with a commit after every statement. */
module Migration {
  import opened Text
  import opened Decimal
  import opened Sql

  // ----- Values of the scripting language -----

  datatype PyType = PyStr | PyInt | PyBool
  // Any other object, such as a date, counts as true and converts to no number.
  datatype PyValue = PyNone | Str(s: string) | Int(n: int) | Bool(b: bool) | Other(text: string)

  function PrintInt(n: int): (text: string) { if n < 0 then "-" + Print(-n) else Print(n) }

  // str(v)
  function StrOf(v: PyValue): (text: string)
  {
    match v
    case PyNone => "None"
    case Str(s) => s
    case Int(n) => PrintInt(n)
    case Bool(b) => if b then "True" else "False"
    case Other(text) => text
  }

  // t(v); None is an exception.
  function Coerced(t: PyType, v: PyValue): (r: Option<PyValue>)
  {
    match t
    case PyStr => Some(Str(StrOf(v)))
    case PyBool => Some(Bool(v != PyNone && v != Str("") && v != Int(0) && v != Bool(false)))
    case PyInt =>
      match v
      case Int(n) => Some(v)
      case Bool(b) => Some(Int(if b then 1 else 0))
      case Str(s) => if s != "" && AllDigits(s) then Some(Int(Value(s))) else None
      case PyNone => None
      case Other(_) => None
  }

  // ----- The tables -----

  datatype Item = Item(name: string, pyType: PyType, decl: string, target: PyType)

  const ACCOUNT_TABLE := "account_info"
  const PASSWORD_TABLE := "password_expiration_date"

  const KEY_ITEM := Item("key", PyStr, "TEXT NOT NULL PRIMARY KEY", PyStr)
  const ID_ITEM := Item("dbID", PyStr, "TEXT NOT NULL", PyStr)
  const OVM_ITEM := Item("dbEffectiveOVM", PyBool, "BOOLEAN", PyInt)
  const OPEN_ITEM := Item("dbOpenAddressing", PyBool, "BOOLEAN", PyInt)
  const DATE_ITEM := Item("expDate", PyStr, "TEXT", PyStr)

  const ACCOUNT_INFO: seq<Item> := [
    KEY_ITEM,
    ID_ITEM,
    Item("dbType", PyStr, "TEXT", PyStr),
    Item("ic", PyInt, "INTEGER", PyInt),
    Item("pnFirstName", PyStr, "TEXT", PyStr),
    Item("pnMiddleName", PyStr, "TEXT", PyStr),
    Item("pnLastName", PyStr, "TEXT", PyStr),
    Item("pnLastNameAtBirth", PyStr, "TEXT", PyStr),
    Item("firmName", PyStr, "TEXT", PyStr),
    Item("biDate", PyStr, "DATETIME", PyStr),
    Item("biCity", PyStr, "TEXT", PyStr),
    Item("biCounty", PyStr, "TEXT", PyStr),
    Item("biState", PyStr, "TEXT", PyStr),
    Item("adCity", PyStr, "TEXT", PyStr),
    Item("adStreet", PyStr, "TEXT", PyStr),
    Item("adNumberInStreet", PyStr, "TEXT", PyStr),
    Item("adNumberInMunicipality", PyStr, "TEXT", PyStr),
    Item("adZipCode", PyStr, "TEXT", PyStr),
    Item("adState", PyStr, "TEXT", PyStr),
    Item("nationality", PyStr, "TEXT", PyStr),
    Item("identifier", PyStr, "TEXT", PyStr),
    Item("registryCode", PyStr, "TEXT", PyStr),
    Item("dbState", PyInt, "INTEGER", PyInt),
    OVM_ITEM,
    OPEN_ITEM
  ]

  const PASSWORD_INFO: seq<Item> := [KEY_ITEM, DATE_ITEM]

  function Columns(items: seq<Item>): (columns: seq<Column>)
    ensures |columns| == |items|
    ensures forall i :: 0 <= i < |items| ==> columns[i] == Column(items[i].name, items[i].decl)
  {
    if items == [] then [] else [Column(items[0].name, items[0].decl)] + Columns(items[1..])
  }

  // ----- Commands: a statement text with the values for its question marks -----

  datatype Command = Command(sql: string, values: seq<string>)

  // What an entry of the shelf holds: the attributes of its account, and the text of its date.
  datatype Entry = Entry(accountInfo: Option<map<string, PyValue>>, expDate: Option<string>)

  // The text bound for an attribute that is present.
  function Bound(item: Item, v: PyValue): (r: Option<string>)
  {
    var w :- if item.pyType != item.target then Coerced(item.target, v) else Some(v);
    Some(StrOf(w))
  }

  // The identifiers and values collected from the attributes; None is an exception.
  function Gather(items: seq<Item>, info: map<string, PyValue>): (r: Option<(seq<string>, seq<string>)>)
    ensures r.Some? ==> |r.value.0| == |r.value.1|
  {
    if items == [] then Some(([], []))
    else
      var n := |items| - 1;
      var front :- Gather(items[..n], info);
      if items[n].name !in info then None
      else if info[items[n].name] == PyNone then Some(front)
      else
        var text :- Bound(items[n], info[items[n].name]);
        Some((front.0 + [items[n].name], front.1 + [text]))
  }

  function Marks(n: nat): (marks: seq<string>)
    ensures |marks| == n && forall i :: 0 <= i < n ==> marks[i] == "?"
  {
    if n == 0 then [] else Marks(n - 1) + ["?"]
  }

  function RowCommand(table: string, items: seq<Item>, key: string, info: map<string, PyValue>): (r: Option<Command>)
    requires items != []
  {
    var r :- Gather(items[1..], info);
    Some(Command(InsertText(table, [items[0].name] + r.0, Marks(|r.0| + 1)), [key] + r.1))
  }

  function AccountCommand(key: string, entry: Entry): (r: Option<Command>)
  {
    var info :- entry.accountInfo;
    RowCommand(ACCOUNT_TABLE, ACCOUNT_INFO, key, info)
  }

  // The date as the one attribute of a record.
  function DateInfo(entry: Entry): (r: map<string, PyValue>)
  {
    map[DATE_ITEM.name := match entry.expDate case Some(d) => Str(d) case None => PyNone]
  }

  function PasswordCommand(key: string, entry: Entry): (r: Option<Command>)
  {
    RowCommand(PASSWORD_TABLE, PASSWORD_INFO, key, DateInfo(entry))
  }

  // ----- A run: commands, each followed by a commit, up to the first exception -----

  function CreateCommand(table: string, items: seq<Item>): (r: Option<Command>)
  {
    Some(Command(CreateText(table, Columns(items)), []))
  }

  // The two commands of a key; a key the shelf does not hold has no content to take apart.
  function AccountOf(shelf: map<string, Entry>, key: string): (r: Option<Command>)
  {
    if key in shelf then AccountCommand(key, shelf[key]) else None
  }

  function DateOf(shelf: map<string, Entry>, key: string): (r: Option<Command>)
  {
    if key in shelf then PasswordCommand(key, shelf[key]) else None
  }

  function KeyCommands(shelf: map<string, Entry>, keys: seq<string>): (commands: seq<Option<Command>>)
    ensures |commands| == 2 * |keys|
  {
    if keys == [] then []
    else
      var n := |keys| - 1;
      KeyCommands(shelf, keys[..n]) + [AccountOf(shelf, keys[n]), DateOf(shelf, keys[n])]
  }

  function Commands(shelf: map<string, Entry>, keys: seq<string>): (commands: seq<Option<Command>>)
    ensures |commands| == 2 + 2 * |keys|
  {
    [CreateCommand(ACCOUNT_TABLE, ACCOUNT_INFO), CreateCommand(PASSWORD_TABLE, PASSWORD_INFO)] +
    KeyCommands(shelf, keys)
  }

  function Step(db: Db, command: Option<Command>): (r: Option<Db>)
  {
    var c :- command;
    Execute(db, c.sql, c.values)
  }

  // The states committed one after the other.
  function Trace(db: Db, commands: seq<Option<Command>>): (trace: seq<Db>)
    ensures |trace| <= |commands|
  {
    if commands == [] then []
    else
      var n := |commands| - 1;
      var trace := Trace(db, commands[..n]);
      if |trace| < n then trace
      else match Step(Last(db, trace), commands[n])
        case Some(next) => trace + [next]
        case None => trace
  }

  function Last(db: Db, trace: seq<Db>): (after: Db) { if trace == [] then db else trace[|trace| - 1] }

  predicate Completes(db: Db, commands: seq<Option<Command>>) { |Trace(db, commands)| == |commands| }

  function Final(db: Db, commands: seq<Option<Command>>): (after: Db) { Last(db, Trace(db, commands)) }

  // ----- The database connection -----

  class Database {
    var committed: Db
    var pending: Db
    // The states committed so far: what a crash can leave behind.
    ghost var history: seq<Db>

    constructor (db: Db)
      ensures committed == pending == db && history == []
    {
      committed, pending, history := db, db, [];
    }

    method Run(sql: string, values: seq<string>) returns (ok: bool)
      modifies this`pending
      ensures ok <==> Execute(old(pending), sql, values).Some?
      ensures pending == if ok then Execute(old(pending), sql, values).value else old(pending)
    {
      var r := Execute(pending, sql, values);
      ok := r.Some?;
      if ok {
        pending := r.value;
      }
    }

    method Commit()
      modifies this
      ensures committed == pending == old(pending)
      ensures history == old(history) + [old(pending)]
    {
      committed := pending;
      history := history + [committed];
    }
  }

  // The connection after the commands run on `start`, as recorded since `past`.
  ghost predicate HasRun(db: Database, start: Db, past: seq<Db>, commands: seq<Option<Command>>)
    reads db
  {
    db.history == past + Trace(start, commands) && db.committed == db.pending == Final(start, commands)
  }

  lemma OneMore(start: Db, commands: seq<Option<Command>>, command: Option<Command>)
    requires Completes(start, commands)
    ensures Trace(start, commands + [command]) ==
      match Step(Final(start, commands), command)
      case Some(next) => Trace(start, commands) + [next]
      case None => Trace(start, commands)
  {
    assert (commands + [command])[..|commands|] == commands;
  }

  // An exception ends the run.
  lemma {:induction false} NoMore(start: Db, commands: seq<Option<Command>>, more: seq<Option<Command>>)
    requires !Completes(start, commands)
    ensures Trace(start, commands + more) == Trace(start, commands)
  {
    hide Step;
    if more == [] {
      assert commands + more == commands;
    } else {
      var n := |more| - 1;
      var all := commands + more;
      NoMore(start, commands, more[..n]);
      assert all[..|all| - 1] == commands + more[..n];
    }
  }

  // One command has been executed and committed, or has raised an exception and changed nothing.
  ghost predicate Took(db: Database, before: Db, past: seq<Db>, command: Option<Command>, ok: bool)
    reads db
  {
    && ok == Step(before, command).Some?
    && db.committed == db.pending == (if ok then Step(before, command).value else before)
    && db.history == (if ok then past + [db.committed] else past)
  }

  // ----- The script -----

  method CreateAccountInfo(db: Database) returns (ok: bool)
    requires db.committed == db.pending
    modifies db
    ensures Took(db, old(db.pending), old(db.history), CreateCommand(ACCOUNT_TABLE, ACCOUNT_INFO), ok)
  {
    hide ACCOUNT_INFO, ACCOUNT_TABLE, Execute, CREATE;
    Structure();
    var sqlCmd := CREATE + ACCOUNT_TABLE + " (";
    ghost var start := sqlCmd;
    var items := ACCOUNT_INFO[..|ACCOUNT_INFO| - 1];
    assert start + Listed(items[..0]) == start;
    for i := 0 to |items|
      invariant sqlCmd == start + Listed(items[..i])
      modifies {}
    {
      ListedStep(start, items, i);
      sqlCmd := sqlCmd + (items[i].name + " " + items[i].decl + ", ");
    }
    assert items[..|items|] == items;
    var item := ACCOUNT_INFO[|ACCOUNT_INFO| - 1];
    sqlCmd := sqlCmd + (item.name + " " + item.decl);
    sqlCmd := sqlCmd + ")";
    ListedIsJoin(start, ACCOUNT_INFO);
    assert sqlCmd == CreateText(ACCOUNT_TABLE, Columns(ACCOUNT_INFO));

    ok := db.Run(sqlCmd, []);
    if ok {
      db.Commit();
    }
  }

  lemma Structure()
    ensures |ACCOUNT_INFO| == 25
  {
  }

  // What the loop over all but the last column has appended.
  ghost function Listed(items: seq<Item>): (text: string)
  {
    if items == [] then ""
    else
      var n := |items| - 1;
      Listed(items[..n]) + (items[n].name + " " + items[n].decl + ", ")
  }

  lemma ListedStep(start: string, items: seq<Item>, i: nat)
    requires i < |items|
    ensures start + Listed(items[..i]) + (items[i].name + " " + items[i].decl + ", ") == start + Listed(items[..i + 1])
  {
    assert items[..i + 1][..i] == items[..i];
  }

  lemma ListedSnoc(items: seq<Item>, item: Item)
    ensures Listed(items + [item]) == Listed(items) + (item.name + " " + item.decl + ", ")
    ensures Listed([]) == ""
  {
    assert (items + [item])[..|items|] == items;
  }

  lemma {:induction false} ListedFirst(item: Item, items: seq<Item>)
    ensures Listed([item] + items) == (item.name + " " + item.decl + ", ") + Listed(items)
  {
    hide *;
    var first := item.name + " " + item.decl + ", ";
    if items == [] {
      ListedSnoc([], item);
      assert [item] + items == [] + [item];
      assert "" + first == first + "";
    } else {
      var n := |items| - 1;
      var front, t := Listed(items[..n]), items[n].name + " " + items[n].decl + ", ";
      ListedFirst(item, items[..n]);
      ListedSnoc(items[..n], items[n]);
      ListedSnoc([item] + items[..n], items[n]);
      assert items == items[..n] + [items[n]];
      assert [item] + items == [item] + items[..n] + [items[n]];
      assert first + front + t == first + (front + t);
    }
  }

  lemma {:induction false} ListedIsJoin(start: string, items: seq<Item>)
    requires items != []
    ensures var n := |items| - 1;
      start + Listed(items[..n]) + (items[n].name + " " + items[n].decl) ==
      start + Join(ColumnTexts(Columns(items)), ", ")
    decreases |items|
  {
    hide *;
    var n := |items| - 1;
    var last := items[n].name + " " + items[n].decl;
    TextsFirst(items);
    if n == 0 {
      ListedSnoc([], items[0]);
      assert items[..n] == [] && start + "" == start;
    } else {
      var rest := items[1..];
      ListedIsJoin("", rest);
      ListedFirst(items[0], rest[..n - 1]);
      assert items[..n] == [items[0]] + rest[..n - 1];
      var text := items[0].name + " " + items[0].decl;
      var r, joined := Listed(rest[..n - 1]), Join(ColumnTexts(Columns(rest)), ", ");
      Regroup(start, text, r, last, joined);
    }
  }

  lemma Regroup(start: string, text: string, r: string, last: string, joined: string)
    requires "" + r + last == "" + joined
    ensures start + ((text + ", ") + r) + last == start + (text + ", " + joined)
  {
    assert r + last == joined by {
      assert "" + r == r && "" + joined == joined;
    }
    assert start + ((text + ", ") + r) + last == start + ((text + ", ") + (r + last));
  }

  lemma TextsFirst(items: seq<Item>)
    requires items != []
    ensures Join(ColumnTexts(Columns(items)), ", ") ==
      var first := items[0].name + " " + items[0].decl;
      if |items| == 1 then first else first + ", " + Join(ColumnTexts(Columns(items[1..])), ", ")
  {
    ColumnTextsSize(Columns(items));
    assert Columns(items)[1..] == Columns(items[1..]);
    assert ColumnTexts(Columns(items))[1..] == ColumnTexts(Columns(items[1..]));
  }

  lemma ColumnTextsSize(columns: seq<Column>)
    ensures |ColumnTexts(columns)| == |columns|
  {
  }

  method CreatePasswordExpirationDate(db: Database) returns (ok: bool)
    requires db.committed == db.pending
    modifies db
    ensures Took(db, old(db.pending), old(db.history), CreateCommand(PASSWORD_TABLE, PASSWORD_INFO), ok)
  {
    hide Execute;
    var sqlCmd := CREATE + PASSWORD_TABLE + " (";
    sqlCmd := sqlCmd + (KEY_ITEM.name + " " + KEY_ITEM.decl + ", ");
    sqlCmd := sqlCmd + (DATE_ITEM.name + " " + DATE_ITEM.decl);
    sqlCmd := sqlCmd + ")";
    PasswordColumns(CREATE + PASSWORD_TABLE + " (");

    ok := db.Run(sqlCmd, []);
    if ok {
      db.Commit();
    }
  }

  lemma PasswordColumns(start: string)
    ensures start + (KEY_ITEM.name + " " + KEY_ITEM.decl + ", ") + (DATE_ITEM.name + " " + DATE_ITEM.decl) ==
      start + Join(ColumnTexts(Columns(PASSWORD_INFO)), ", ")
  {
    hide KEY_ITEM, DATE_ITEM;
    ListedIsJoin(start, PASSWORD_INFO);
    assert PASSWORD_INFO[..1] == [KEY_ITEM] && [KEY_ITEM][..0] == [];
    var first := KEY_ITEM.name + " " + KEY_ITEM.decl + ", ";
    assert Listed([KEY_ITEM]) == "" + first;
    assert "" + first == first;
  }

  method MigrateAccountInfo(db: Database, key: string, entry: Entry) returns (ok: bool)
    requires db.committed == db.pending
    modifies db
    ensures Took(db, old(db.pending), old(db.history), AccountCommand(key, entry), ok)
  {
    hide ACCOUNT_INFO, ACCOUNT_TABLE, Execute, INSERT, VALUES, Bound;
    Structure();
    var identifiers: seq<string> := [];
    var questionmarks: seq<string> := [];
    var values: seq<string> := [];
    identifiers := identifiers + [ACCOUNT_INFO[0].name];
    questionmarks := questionmarks + ["?"];
    values := values + [key];
    if entry.accountInfo.None? {
      return false;
    }
    var info := entry.accountInfo.value;
    var items := ACCOUNT_INFO[1..];
    assert items[..0] == [] && identifiers[1..] == [] && values[1..] == [] && Marks(1) == ["?"];
    for i := 0 to |items|
      invariant |identifiers| == |questionmarks| == |values| >= 1
      invariant identifiers[0] == ACCOUNT_INFO[0].name && values[0] == key
      invariant Gather(items[..i], info) == Some((identifiers[1..], values[1..]))
      invariant questionmarks == Marks(|identifiers|)
      modifies {}
    {
      var item := items[i];
      GatherStep(items, i, info);
      if item.name !in info {
        GatherFails(items, i + 1, info);
        return false;
      }
      var value := info[item.name];
      if value != PyNone {
        var text := Bound(item, value);
        if text.None? {
          GatherFails(items, i + 1, info);
          return false;
        }
        assert (identifiers + [item.name])[1..] == identifiers[1..] + [item.name];
        assert (values + [text.value])[1..] == values[1..] + [text.value];
        identifiers := identifiers + [item.name];
        questionmarks := questionmarks + ["?"];
        values := values + [text.value];
      }
    }
    assert items[..|items|] == items;

    var sqlCmd := INSERT + ACCOUNT_TABLE + " (";
    sqlCmd := sqlCmd + Join(identifiers, ", ");
    sqlCmd := sqlCmd + ")" + VALUES;
    sqlCmd := sqlCmd + Join(questionmarks, ", ");
    sqlCmd := sqlCmd + ")";
    assert identifiers == [ACCOUNT_INFO[0].name] + identifiers[1..] && values == [key] + values[1..];

    ok := db.Run(sqlCmd, values);
    if ok {
      db.Commit();
    }
  }

  lemma GatherStep(items: seq<Item>, i: nat, info: map<string, PyValue>)
    requires i < |items|
    ensures Gather(items[..i + 1], info) ==
      match Gather(items[..i], info)
      case None => None
      case Some(front) =>
        if items[i].name !in info then None
        else if info[items[i].name] == PyNone then Some(front)
        else match Bound(items[i], info[items[i].name])
          case None => None
          case Some(text) => Some((front.0 + [items[i].name], front.1 + [text]))
  {
    assert items[..i + 1][..i] == items[..i];
  }

  lemma {:induction false} GatherFails(items: seq<Item>, i: nat, info: map<string, PyValue>)
    requires i <= |items| && Gather(items[..i], info).None?
    ensures Gather(items, info).None?
    decreases |items| - i
  {
    if i == |items| {
      assert items[..i] == items;
    } else {
      GatherStep(items, i, info);
      GatherFails(items, i + 1, info);
    }
  }

  method MigratePasswordDate(db: Database, key: string, entry: Entry) returns (ok: bool)
    requires db.committed == db.pending
    modifies db
    ensures Took(db, old(db.pending), old(db.history), PasswordCommand(key, entry), ok)
  {
    hide Execute, PASSWORD_TABLE, INSERT, VALUES, KEY_ITEM, DATE_ITEM;
    var identifiers: seq<string> := [];
    var questionmarks: seq<string> := [];
    var values: seq<string> := [];
    identifiers := identifiers + [KEY_ITEM.name];
    questionmarks := questionmarks + ["?"];
    values := values + [key];
    if entry.expDate.Some? {
      identifiers := identifiers + [DATE_ITEM.name];
      questionmarks := questionmarks + ["?"];
      values := values + [entry.expDate.value];
    }
    var sqlCmd := INSERT + PASSWORD_TABLE + " (";
    sqlCmd := sqlCmd + Join(identifiers, ", ");
    sqlCmd := sqlCmd + ")" + VALUES;
    sqlCmd := sqlCmd + Join(questionmarks, ", ");
    sqlCmd := sqlCmd + ")";
    DateGathered(entry);
    MarksAre(questionmarks);
    assert PASSWORD_INFO[0] == KEY_ITEM;
    assert identifiers == [KEY_ITEM.name] + identifiers[1..] && values == [key] + values[1..];
    assert identifiers[1..] == (if entry.expDate.Some? then [DATE_ITEM.name] else []);
    assert values[1..] == (if entry.expDate.Some? then [entry.expDate.value] else []);

    ok := db.Run(sqlCmd, values);
    if ok {
      db.Commit();
    }
  }

  lemma MarksAre(marks: seq<string>)
    requires forall i :: 0 <= i < |marks| ==> marks[i] == "?"
    ensures marks == Marks(|marks|)
  {
  }

  lemma DateGathered(entry: Entry)
    ensures Gather(PASSWORD_INFO[1..], DateInfo(entry)) ==
      match entry.expDate
      case Some(d) => Some(([DATE_ITEM.name], [d]))
      case None => Some(([], []))
  {
    hide KEY_ITEM, DATE_ITEM;
    var info := DateInfo(entry);
    assert PASSWORD_INFO[1..] == [DATE_ITEM];
    DateBound();
    GatherStep([DATE_ITEM], 0, info);
    assert [DATE_ITEM][..0] == [] && [DATE_ITEM][..1] == [DATE_ITEM];
    assert Gather([], info) == Some(([], []));
    assert [] + [DATE_ITEM.name] == [DATE_ITEM.name];
    assert forall d: string :: [] + [d] == [d];
  }

  lemma DateBound()
    ensures forall d :: Bound(DATE_ITEM, Str(d)) == Some(d)
  {
  }

  // One more command of a run.
  lemma RanOne(start: Db, done: seq<Option<Command>>, command: Option<Command>)
    requires Completes(start, done)
    ensures var step := Step(Final(start, done), command);
      Completes(start, done + [command]) == step.Some? &&
      Trace(start, done + [command]) == Trace(start, done) + (if step.Some? then [step.value] else []) &&
      Final(start, done + [command]) == (if step.Some? then step.value else Final(start, done))
  {
    hide Step;
    OneMore(start, done, command);
  }

  lemma {:induction false} KeyCommandsPrefix(shelf: map<string, Entry>, keys: seq<string>, i: nat)
    requires i <= |keys|
    ensures KeyCommands(shelf, keys)[..2 * i] == KeyCommands(shelf, keys[..i])
    decreases |keys|
  {
    hide AccountOf, DateOf;
    if i == |keys| {
      assert keys[..i] == keys;
    } else {
      var n := |keys| - 1;
      KeyCommandsPrefix(shelf, keys[..n], i);
      assert keys[..n][..i] == keys[..i];
      assert KeyCommands(shelf, keys)[..2 * i] == KeyCommands(shelf, keys[..n])[..2 * i];
    }
  }

  // The commands of one more key, and what is left.
  lemma CommandsAt(shelf: map<string, Entry>, keys: seq<string>, i: nat)
    requires i < |keys|
    ensures Commands(shelf, keys[..i + 1]) == Commands(shelf, keys[..i]) +
      [AccountOf(shelf, keys[i])] + [DateOf(shelf, keys[i])]
    ensures |Commands(shelf, keys[..i + 1])| <= |Commands(shelf, keys)|
    ensures Commands(shelf, keys) ==
      Commands(shelf, keys[..i + 1]) + Commands(shelf, keys)[|Commands(shelf, keys[..i + 1])|..]
  {
    hide AccountOf, DateOf, CreateCommand;
    KeyCommandsPrefix(shelf, keys, i + 1);
    assert keys[..i + 1][..i] == keys[..i];
    var a, b := AccountOf(shelf, keys[i]), DateOf(shelf, keys[i]);
    assert KeyCommands(shelf, keys[..i + 1]) == KeyCommands(shelf, keys[..i]) + [a, b];
    var all, next := Commands(shelf, keys), Commands(shelf, keys[..i + 1]);
    assert all[..|next|] == next;
  }

  method CreateTables(db: Database) returns (ok: bool)
    requires db.committed == db.pending
    modifies db
    ensures HasRun(db, old(db.committed), old(db.history),
      [CreateCommand(ACCOUNT_TABLE, ACCOUNT_INFO), CreateCommand(PASSWORD_TABLE, PASSWORD_INFO)])
    ensures ok == Completes(old(db.committed),
      [CreateCommand(ACCOUNT_TABLE, ACCOUNT_INFO), CreateCommand(PASSWORD_TABLE, PASSWORD_INFO)])
  {
    hide CreateCommand, Step;
    ghost var start := db.committed;
    ghost var first, second :=
      CreateCommand(ACCOUNT_TABLE, ACCOUNT_INFO), CreateCommand(PASSWORD_TABLE, PASSWORD_INFO);
    assert [] + [first] == [first] && [first] + [second] == [first, second];
    ok := CreateAccountInfo(db);
    RanOne(start, [], first);
    if !ok {
      NoMore(start, [first], [second]);
      return;
    }
    ok := CreatePasswordExpirationDate(db);
    RanOne(start, [first], second);
  }

  // The two statements of one key, after the commands `done` have run on `start`.
  method MigrateKey(db: Database, shelf: map<string, Entry>, key: string, ghost start: Db, ghost past: seq<Db>,
      ghost done: seq<Option<Command>>) returns (ok: bool)
    requires HasRun(db, start, past, done) && Completes(start, done)
    modifies db
    ensures HasRun(db, start, past, done + [AccountOf(shelf, key)] + [DateOf(shelf, key)])
    ensures ok == Completes(start, done + [AccountOf(shelf, key)] + [DateOf(shelf, key)])
  {
    hide AccountCommand, PasswordCommand, Execute;
    ghost var a, b := AccountOf(shelf, key), DateOf(shelf, key);
    if key !in shelf {
      RanOne(start, done, a);
      NoMore(start, done + [a], [b]);
      return false;
    }
    var content := shelf[key];
    ok := MigrateAccountInfo(db, key, content);
    RanOne(start, done, a);
    if !ok {
      NoMore(start, done + [a], [b]);
      return;
    }
    ok := MigratePasswordDate(db, key, content);
    RanOne(start, done + [a], b);
  }

  // The whole script. It runs the commands of the shelf's keys in the order given, recording what
  // each commit leaves behind, and stops at the first exception.
  method Migrate(shelf: map<string, Entry>, keys: seq<string>, db: Database) returns (ok: bool)
    requires db.committed == db.pending
    modifies db
    ensures HasRun(db, old(db.committed), old(db.history), Commands(shelf, keys))
    ensures ok == Completes(old(db.committed), Commands(shelf, keys))
  {
    hide CreateCommand, AccountOf, DateOf, Step, Trace, KeyCommands;
    ghost var start, past := db.committed, db.history;
    ghost var all := Commands(shelf, keys);
    ok := CreateTables(db);
    CommandsStart(shelf, keys);
    if !ok {
      NoMore(start, Commands(shelf, keys[..0]), all[2..]);
      return;
    }
    for i := 0 to |keys|
      invariant HasRun(db, start, past, Commands(shelf, keys[..i]))
      invariant Completes(start, Commands(shelf, keys[..i]))
    {
      CommandsAt(shelf, keys, i);
      ok := MigrateKey(db, shelf, keys[i], start, past, Commands(shelf, keys[..i]));
      if !ok {
        ghost var next := Commands(shelf, keys[..i + 1]);
        NoMore(start, next, all[|next|..]);
        return;
      }
    }
    assert keys[..|keys|] == keys;
    ok := true;
  }

  lemma CommandsStart(shelf: map<string, Entry>, keys: seq<string>)
    ensures Commands(shelf, keys[..0]) ==
      [CreateCommand(ACCOUNT_TABLE, ACCOUNT_INFO), CreateCommand(PASSWORD_TABLE, PASSWORD_INFO)]
    ensures Commands(shelf, keys) == Commands(shelf, keys[..0]) + Commands(shelf, keys)[2..]
  {
  }
}
