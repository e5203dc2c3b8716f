/** What the migration writes, word by word: statements, columns and cells. */
module MigrationTexts {
  import opened Text
  import opened Decimal
  import opened Sql
  import opened Migration
  import opened MigrationRows
  import opened MigrationTables
  import opened MigrationSteps
  import opened MigrationLaws
  import opened MigrationSchemas

  // ----- The columns -----

  const COLUMNS: seq<Column> := [
    Column("key", "TEXT NOT NULL PRIMARY KEY"),
    Column("dbID", "TEXT NOT NULL"),
    Column("dbType", "TEXT"),
    Column("ic", "INTEGER"),
    Column("pnFirstName", "TEXT"),
    Column("pnMiddleName", "TEXT"),
    Column("pnLastName", "TEXT"),
    Column("pnLastNameAtBirth", "TEXT"),
    Column("firmName", "TEXT"),
    Column("biDate", "DATETIME"),
    Column("biCity", "TEXT"),
    Column("biCounty", "TEXT"),
    Column("biState", "TEXT"),
    Column("adCity", "TEXT"),
    Column("adStreet", "TEXT"),
    Column("adNumberInStreet", "TEXT"),
    Column("adNumberInMunicipality", "TEXT"),
    Column("adZipCode", "TEXT"),
    Column("adState", "TEXT"),
    Column("nationality", "TEXT"),
    Column("identifier", "TEXT"),
    Column("registryCode", "TEXT"),
    Column("dbState", "INTEGER"),
    Column("dbEffectiveOVM", "BOOLEAN"),
    Column("dbOpenAddressing", "BOOLEAN")
  ]

  const DATE_COLUMNS: seq<Column> := [Column("key", "TEXT NOT NULL PRIMARY KEY"), Column("expDate", "TEXT")]

  lemma ColumnsAre()
    ensures Columns(ACCOUNT_INFO) == COLUMNS && Columns(PASSWORD_INFO) == DATE_COLUMNS
    ensures |ACCOUNT_INFO| == |COLUMNS| == 25
  {
    DateColumnsAre();
    ColumnCount();
    Columns0(); Columns5(); Columns10(); Columns15(); Columns20();
    hide ACCOUNT_INFO, COLUMNS, PASSWORD_INFO, DATE_COLUMNS;
    forall i | 0 <= i < 25 ensures Columns(ACCOUNT_INFO)[i] == COLUMNS[i] {
      assert ColumnIs(i);
    }
  }

  predicate ColumnIs(i: nat)
    requires i < |ACCOUNT_INFO| && i < |COLUMNS|
  {
    Column(ACCOUNT_INFO[i].name, ACCOUNT_INFO[i].decl) == COLUMNS[i]
  }

  lemma ColumnCount()
    ensures |ACCOUNT_INFO| == |COLUMNS| == 25
  {
  }

  lemma Columns0()
    ensures |ACCOUNT_INFO| == |COLUMNS| == 25
    ensures ColumnIs(0) && ColumnIs(1) && ColumnIs(2) && ColumnIs(3) && ColumnIs(4)
  {
  }

  lemma Columns5()
    ensures |ACCOUNT_INFO| == |COLUMNS| == 25
    ensures ColumnIs(5) && ColumnIs(6) && ColumnIs(7) && ColumnIs(8) && ColumnIs(9)
  {
  }

  lemma Columns10()
    ensures |ACCOUNT_INFO| == |COLUMNS| == 25
    ensures ColumnIs(10) && ColumnIs(11) && ColumnIs(12) && ColumnIs(13) && ColumnIs(14)
  {
  }

  lemma Columns15()
    ensures |ACCOUNT_INFO| == |COLUMNS| == 25
    ensures ColumnIs(15) && ColumnIs(16) && ColumnIs(17) && ColumnIs(18) && ColumnIs(19)
  {
  }

  lemma Columns20()
    ensures |ACCOUNT_INFO| == |COLUMNS| == 25
    ensures ColumnIs(20) && ColumnIs(21) && ColumnIs(22) && ColumnIs(23) && ColumnIs(24)
  {
  }

  lemma DateColumnsAre()
    ensures Columns(PASSWORD_INFO) == DATE_COLUMNS
  {
    ItemsStart();
    hide PASSWORD_INFO;
    assert [KEY_ITEM, DATE_ITEM][1..] == [DATE_ITEM];
  }

  // ----- The statements -----

  lemma CreateTexts()
    ensures CreateCommand(ACCOUNT_TABLE, ACCOUNT_INFO) ==
      Some(Command("CREATE TABLE IF NOT EXISTS " + "account_info" + " (" + Join(ColumnTexts(COLUMNS), ", ") + ")", []))
    ensures CreateCommand(PASSWORD_TABLE, PASSWORD_INFO) ==
      Some(Command("CREATE TABLE IF NOT EXISTS " + "password_expiration_date" + " (" +
                   Join(ColumnTexts(DATE_COLUMNS), ", ") + ")", []))
  {
    ColumnsAre();
    hide Columns, COLUMNS, DATE_COLUMNS, Join, ACCOUNT_INFO, PASSWORD_INFO;
  }

  // The statement of an account names the key and the gathered attributes, with as many marks.
  lemma AccountText(key: string, info: map<string, PyValue>)
    ensures ACCOUNT_INFO != []
    ensures RowCommand(ACCOUNT_TABLE, ACCOUNT_INFO, key, info) ==
      match Gather(ACCOUNT_INFO[1..], info)
      case None => None
      case Some(r) =>
        Some(Command("INSERT OR REPLACE INTO " + "account_info" + " (" + Join(["key"] + r.0, ", ") + ")" + " VALUES (" +
                     Join(Marks(|r.0| + 1), ", ") + ")", [key] + r.1))
  {
    ItemsStart();
    assert KEY_ITEM.name == "key";
    hide ACCOUNT_INFO, Gather, Join, Marks, KEY_ITEM;
  }

  // The statement of a date names the key, and the date if there is one.
  lemma DateText(key: string, entry: Entry)
    ensures PasswordCommand(key, entry) == Some(
      match entry.expDate
      case Some(d) =>
        Command("INSERT OR REPLACE INTO " + "password_expiration_date" + " (" + Join(["key", "expDate"], ", ") + ")" +
                " VALUES (" + Join(["?", "?"], ", ") + ")", [key, d])
      case None =>
        Command("INSERT OR REPLACE INTO " + "password_expiration_date" + " (" + Join(["key"], ", ") + ")" +
                " VALUES (" + Join(["?"], ", ") + ")", [key]))
  {
    DateGathered(entry);
    ItemsStart();
    DateNames();
    TwoMarks();
    hide Gather, Join, Marks, KEY_ITEM, DATE_ITEM, DateInfo, PASSWORD_INFO;
    assert ["key"] + ["expDate"] == ["key", "expDate"] && ["key"] + [] == ["key"] && [key] + [] == [key];
    assert forall d: string :: [key] + [d] == [key, d];
  }

  lemma DateNames()
    ensures KEY_ITEM.name == "key" && DATE_ITEM.name == "expDate"
  {
  }

  lemma TwoMarks()
    ensures Marks(1) == ["?"] && Marks(2) == ["?", "?"]
  {
  }

  // ----- The text of a value -----

  ghost predicate NatNumeral(text: string, n: nat)
  {
    text != "" && (forall i :: 0 <= i < |text| ==> '0' <= text[i] <= '9') && AllDigits(text) && Weighted(text) == n &&
    (text == "0" || text[0] != '0')
  }

  // A decimal numeral, without leading zeros, with a sign in front exactly if negative.
  ghost predicate IsNumeral(text: string, n: int)
  {
    if n < 0 then text != "" && text[0] == '-' && NatNumeral(text[1..], -n) else NatNumeral(text, n)
  }

  lemma PrintIs(n: nat)
    ensures NatNumeral(Print(n), n)
  {
    ValuePrint(n);
    ValueIsWeighted(Print(n));
    NoLeadingZero(n);
    hide Print, Value, Weighted;
  }

  lemma PrintIntIs(n: int)
    ensures IsNumeral(PrintInt(n), n)
  {
    if n < 0 {
      PrintIs(-n);
      assert PrintInt(n)[1..] == Print(-n);
    } else {
      PrintIs(n);
    }
    hide Print, NatNumeral;
  }

  ghost predicate Says(v: PyValue, text: string)
  {
    match v
    case PyNone => false
    case Str(s) => text == s
    case Int(n) => IsNumeral(text, n)
    case Bool(b) => text == if b then "True" else "False"
    case Other(t) => text == t
  }

  ghost predicate FlagSays(v: PyValue, text: string)
  {
    match v
    case Bool(b) => text == if b then "1" else "0"
    case Int(n) => IsNumeral(text, n)
    case Str(s) => s != "" && AllDigits(s) && NatNumeral(text, Weighted(s))
    case _ => false
  }

  // A flag converts if it is absent, a truth value, a number or a text of digits.
  ghost predicate FlagConverts(v: PyValue)
  {
    match v
    case Str(s) => s != "" && forall i :: 0 <= i < |s| ==> '0' <= s[i] <= '9'
    case Other(_) => false
    case _ => true
  }

  lemma PlainBound(item: Item, v: PyValue)
    requires item.pyType == item.target
    ensures Bound(item, v).Some? && (v != PyNone ==> Says(v, Bound(item, v).value))
  {
    if v.Int? {
      PrintIntIs(v.n);
    }
    hide PrintInt, IsNumeral;
  }

  lemma FlagBound(item: Item, v: PyValue)
    requires item.pyType == PyBool && item.target == PyInt && v != PyNone
    ensures Bound(item, v).Some? <==> FlagConverts(v)
    ensures Bound(item, v).Some? ==> FlagSays(v, Bound(item, v).value)
  {
    match v
    case Int(n) => PrintIntIs(n);
    case Str(s) =>
      if s != "" && AllDigits(s) {
        ValueIsWeighted(s);
        PrintIntIs(Value(s));
      }
    case Bool(b) => PrintBits();
    case Other(_) =>
    hide IsNumeral, NatNumeral, Weighted, Value, PrintInt;
  }

  lemma PrintBits()
    ensures PrintInt(0) == "0" && PrintInt(1) == "1"
  {
  }

  // ----- The cells -----

  predicate IsFlag(name: string) { name == "dbEffectiveOVM" || name == "dbOpenAddressing" }

  // The two flags are turned into numbers, every other attribute is stored as its text, and an absent
  // one is not stored.
  ghost predicate CellSays(name: string, v: PyValue, cell: Option<string>)
  {
    if v == PyNone then cell == None
    else cell.Some? && if IsFlag(name) then FlagSays(v, cell.value) else Says(v, cell.value)
  }

  lemma TypesAre()
    ensures |ACCOUNT_INFO| == 25
    ensures forall i :: 0 <= i < 23 ==> ACCOUNT_INFO[i].pyType == ACCOUNT_INFO[i].target
    ensures forall i :: 23 <= i < 25 ==> ACCOUNT_INFO[i].pyType == PyBool && ACCOUNT_INFO[i].target == PyInt
  {
  }

  lemma NamesAre()
    ensures |ACCOUNT_INFO| == |COLUMNS| == 25
    ensures forall i :: 0 <= i < 25 ==> ACCOUNT_INFO[i].name == COLUMNS[i].name
    ensures forall i :: 0 <= i < 25 ==> (IsFlag(COLUMNS[i].name) <==> i >= 23)
    ensures COLUMNS[0].name == "key" && COLUMNS[1].name == "dbID"
    ensures COLUMNS[23].name == "dbEffectiveOVM" && COLUMNS[24].name == "dbOpenAddressing"
  {
    ColumnsAre();
    FlagItems();
    AccountDescribed();
    DescribedKey(ACCOUNT_INFO);
    EndsAre();
    hide ACCOUNT_INFO, COLUMNS, Described, KeyName, OVM_ITEM, OPEN_ITEM;
    forall i | 0 <= i < 25 ensures ACCOUNT_INFO[i].name == COLUMNS[i].name {
      assert Columns(ACCOUNT_INFO)[i] == Column(ACCOUNT_INFO[i].name, ACCOUNT_INFO[i].decl);
    }
    forall i | 0 <= i < 25 ensures IsFlag(COLUMNS[i].name) <==> i >= 23 {
      assert i < 23 ==> ACCOUNT_INFO[i].name != ACCOUNT_INFO[23].name && ACCOUNT_INFO[i].name != ACCOUNT_INFO[24].name;
    }
  }

  lemma EndsAre()
    ensures |COLUMNS| == 25 && COLUMNS[0].name == "key" && COLUMNS[1].name == "dbID"
    ensures COLUMNS[23].name == "dbEffectiveOVM" && COLUMNS[24].name == "dbOpenAddressing"
  {
  }

  lemma BoundSays(i: nat, v: PyValue)
    requires 1 <= i < 25 && v != PyNone
    ensures |ACCOUNT_INFO| == |COLUMNS| == 25
    ensures var cell := Bound(ACCOUNT_INFO[i], v);
      (cell.Some? ==> CellSays(COLUMNS[i].name, v, cell)) &&
      (cell.Some? <==> (IsFlag(COLUMNS[i].name) ==> FlagConverts(v)))
  {
    NamesAre();
    TypesAre();
    hide ACCOUNT_INFO, COLUMNS, Bound, Says, FlagSays, FlagConverts, IsFlag;
    if i < 23 {
      PlainBound(ACCOUNT_INFO[i], v);
    } else {
      FlagBound(ACCOUNT_INFO[i], v);
    }
  }

  // A row that holds, cell by cell, the key, and for each of the other 24 attributes what its value
  // says; a column that is none of these is NULL.
  ghost predicate AccountSays(row: Row, key: string, entry: Entry)
  {
    |COLUMNS| == 25 && entry.accountInfo.Some? && "key" in row && row["key"] == Some(key) &&
    (forall i :: 1 <= i < 25 ==>
      var name, info := COLUMNS[i].name, entry.accountInfo.value;
      name in info && CellSays(name, info[name], if name in row then row[name] else None)) &&
    forall n :: HasValue(row, n) ==> exists i :: 0 <= i < 25 && COLUMNS[i].name == n
  }

  // The row of an account as any table that takes it stores it.
  lemma StoredCells(s: Schemas, key: string, entry: Entry)
    requires TakesAccount(s, key, entry)
    ensures AccountSays(AccountRow(s.accounts.columns, key, entry), key, entry)
    ensures AccountRow(s.accounts.columns, key, entry).Keys == Blank(s.accounts.columns).Keys
  {
    var row, info := AccountRow(s.accounts.columns, key, entry), entry.accountInfo.value;
    AccountCells(s, key, entry);
    NamesAre();
    hide ACCOUNT_INFO, COLUMNS, AccountRow, Bound, CellSays, TakesAccount, IsFlag;
    forall i | 1 <= i < 25
      ensures var name := COLUMNS[i].name;
        name in info && CellSays(name, info[name], if name in row then row[name] else None)
    {
      CellAt(i, info, row);
    }
    forall n | HasValue(row, n) ensures exists i :: 0 <= i < 25 && COLUMNS[i].name == n {
      var i :| 0 <= i < |ACCOUNT_INFO| && ACCOUNT_INFO[i].name == n;
      assert COLUMNS[i].name == n;
    }
  }

  lemma CellAt(i: nat, info: map<string, PyValue>, row: Row)
    requires 1 <= i < 25 && |ACCOUNT_INFO| == |COLUMNS| == 25 && ACCOUNT_INFO[i].name == COLUMNS[i].name
    requires var item := ACCOUNT_INFO[i];
      item.name in info && (info[item.name] == PyNone ==> !HasValue(row, item.name)) &&
      (info[item.name] != PyNone ==> HasValue(row, item.name) && Bound(item, info[item.name]) == row[item.name])
    ensures var name := COLUMNS[i].name; CellSays(name, info[name], if name in row then row[name] else None)
  {
    var v := info[COLUMNS[i].name];
    hide ACCOUNT_INFO, COLUMNS, Bound;
    if v != PyNone {
      BoundSays(i, v);
    }
    hide IsFlag, Says, FlagSays;
  }

  function Given(info: map<string, PyValue>, name: string): (v: PyValue)
  {
    if name in info then info[name] else PyNone
  }

  // Which entries convert: the record is there with all 24 attributes, there is a box identifier,
  // and the two flags convert.
  lemma ConvertibleIs(entry: Entry)
    ensures |COLUMNS| == 25
    ensures Convertible(entry) <==>
      entry.accountInfo.Some? &&
      (forall i :: 1 <= i < 25 ==> COLUMNS[i].name in entry.accountInfo.value) &&
      Given(entry.accountInfo.value, "dbID") != PyNone &&
      FlagConverts(Given(entry.accountInfo.value, "dbEffectiveOVM")) &&
      FlagConverts(Given(entry.accountInfo.value, "dbOpenAddressing"))
  {
    NamesAre();
    if entry.accountInfo.Some? {
      var info := entry.accountInfo.value;
      AccountReadable(info);
      IdCell(info);
      hide ACCOUNT_INFO, COLUMNS, Gather, CellOf, FlagConverts, Readable;
      ReadableIs(info);
    }
  }

  lemma IdCell(info: map<string, PyValue>)
    ensures CellOf(ID_ITEM, info).Some? <==> "dbID" in info && info["dbID"] != PyNone
  {
  }

  lemma ReadableIs(info: map<string, PyValue>)
    ensures |COLUMNS| == 25
    ensures Readable(ACCOUNT_INFO, info) <==>
      (forall i :: 1 <= i < 25 ==> COLUMNS[i].name in info) && FlagConverts(Given(info, "dbEffectiveOVM")) &&
      FlagConverts(Given(info, "dbOpenAddressing"))
  {
    NamesAre();
    hide ACCOUNT_INFO, COLUMNS, FlagConverts, IsFlag, Bound;
    forall i | 1 <= i < 25
      ensures Reads(ACCOUNT_INFO[i], info) <==>
        COLUMNS[i].name in info && (i >= 23 ==> FlagConverts(info[COLUMNS[i].name]))
    {
      if COLUMNS[i].name in info {
        ReadsIs(i, info);
      }
    }
    hide Reads;
    if Readable(ACCOUNT_INFO, info) {
      assert Reads(ACCOUNT_INFO[23], info) && Reads(ACCOUNT_INFO[24], info);
    }
  }

  lemma ReadsIs(i: nat, info: map<string, PyValue>)
    requires 1 <= i < 25 && |ACCOUNT_INFO| == |COLUMNS| == 25 && ACCOUNT_INFO[i].name == COLUMNS[i].name
    requires COLUMNS[i].name in info && (IsFlag(COLUMNS[i].name) <==> i >= 23)
    ensures Reads(ACCOUNT_INFO[i], info) <==> (i >= 23 ==> FlagConverts(info[COLUMNS[i].name]))
  {
    var v := info[COLUMNS[i].name];
    hide ACCOUNT_INFO, COLUMNS, Bound, IsFlag;
    if v != PyNone {
      BoundSays(i, v);
    }
  }

  // ----- The whole script on an empty database -----

  // Two tables of these names and columns, and in both exactly the keys of the shelf. An account
  // holds what its attributes say, and the other row the key and the date.
  ghost predicate Migrated(after: Db, shelf: Shelf)
  {
    after.Keys == {"account_info", "password_expiration_date"} &&
    after["account_info"].schema == Schema(COLUMNS, Some("key"), map[]) &&
    after["account_info"].rows.Keys == shelf.Keys &&
    (forall k :: k in shelf ==>
      var row := after["account_info"].rows[k];
      AccountSays(row, k, shelf[k]) && row.Keys == set c | c in COLUMNS :: c.name) &&
    after["password_expiration_date"].schema == Schema(DATE_COLUMNS, Some("key"), map[]) &&
    after["password_expiration_date"].rows ==
      map k | k in shelf :: map["key" := Some(k), "expDate" := shelf[k].expDate]
  }

  // With a database that holds nothing, and entries that all convert, this is what a run leaves, in
  // any order of the keys.
  lemma FromEmpty(shelf: Shelf, keys: seq<string>)
    requires Enumerates(keys, shelf) && forall k :: k in shelf ==> Convertible(shelf[k])
    ensures Completes(map[], Commands(shelf, keys))
    ensures Final(map[], Commands(shelf, keys)) == Done(map[], shelf, shelf.Keys, shelf.Keys)
    ensures Migrated(Final(map[], Commands(shelf, keys)), shelf)
  {
    hide *;
    EmptyDone(shelf, keys);
    DoneIsMigrated(shelf);
  }

  lemma DoneIsMigrated(shelf: Shelf)
    requires forall k :: k in shelf ==> Convertible(shelf[k])
    ensures Migrated(Done(map[], shelf, shelf.Keys, shelf.Keys), shelf)
  {
    hide *;
    EmptyTables(shelf);
    EmptyRows(shelf);
    assert forall k :: k in shelf ==> shelf[k].accountInfo.Some?;
    var accounts := map k | k in shelf :: AccountRow(COLUMNS, k, shelf[k]);
    MigratedIs(Done(map[], shelf, shelf.Keys, shelf.Keys), shelf, accounts,
               map k | k in shelf :: DateRow(DATE_COLUMNS, k, shelf[k]));
  }

  lemma MigratedIs(after: Db, shelf: Shelf, accounts: map<string, Row>, dates: map<string, Row>)
    requires after.Keys == {"account_info", "password_expiration_date"}
    requires after["account_info"] == Table(Schema(COLUMNS, Some("key"), map[]), accounts)
    requires after["password_expiration_date"] == Table(Schema(DATE_COLUMNS, Some("key"), map[]), dates)
    requires accounts.Keys == shelf.Keys
    requires forall k :: k in shelf ==>
      AccountSays(accounts[k], k, shelf[k]) && accounts[k].Keys == set c | c in COLUMNS :: c.name
    requires dates == map k | k in shelf :: map["key" := Some(k), "expDate" := shelf[k].expDate]
    ensures Migrated(after, shelf)
  {
    hide AccountSays, COLUMNS, DATE_COLUMNS;
  }

  // The script with a new database file.
  method ConvertNew(shelf: Shelf, keys: seq<string>) returns (db: Database, ok: bool)
    requires Enumerates(keys, shelf)
    ensures fresh(db) && (ok <==> forall k :: k in shelf ==> Convertible(shelf[k]))
    ensures ok ==> Migrated(db.committed, shelf)
  {
    hide SchemasOf, Convertible, Migrated, Done, Keyed, AllTaken, PartWay, Taken, Good, Reached;
    FreshTables(map[], shelf);
    db, ok := ConvertShelf(shelf, keys, map[]);
    if ok {
      DoneIsMigrated(shelf);
    }
  }

  lemma EmptyRows(shelf: Shelf)
    requires forall k :: k in shelf ==> Convertible(shelf[k])
    ensures forall k :: k in shelf ==>
      shelf[k].accountInfo.Some? && AccountSays(AccountRow(COLUMNS, k, shelf[k]), k, shelf[k]) &&
      AccountRow(COLUMNS, k, shelf[k]).Keys == set c | c in COLUMNS :: c.name
    ensures (map k | k in shelf :: DateRow(DATE_COLUMNS, k, shelf[k])) ==
      map k | k in shelf :: map["key" := Some(k), "expDate" := shelf[k].expDate]
  {
    hide *;
    forall k | k in shelf
      ensures shelf[k].accountInfo.Some? && AccountSays(AccountRow(COLUMNS, k, shelf[k]), k, shelf[k]) &&
        AccountRow(COLUMNS, k, shelf[k]).Keys == set c | c in COLUMNS :: c.name
    {
      EmptyAccount(k, shelf[k]);
    }
    forall k | k in shelf
      ensures DateRow(DATE_COLUMNS, k, shelf[k]) == map["key" := Some(k), "expDate" := shelf[k].expDate]
    {
      EmptyDate(k, shelf[k]);
    }
  }

  lemma EmptyDone(shelf: Shelf, keys: seq<string>)
    requires Enumerates(keys, shelf) && forall k :: k in shelf ==> Convertible(shelf[k])
    ensures Completes(map[], Commands(shelf, keys))
    ensures Final(map[], Commands(shelf, keys)) == Done(map[], shelf, shelf.Keys, shelf.Keys)
  {
    FreshTables(map[], shelf);
    hide Convertible, SchemasOf, Commands, Completes, Final, Done, Keyed, AllTaken;
    CrashConvergence(map[], [], shelf, keys);
  }

  lemma EmptyTables(shelf: Shelf)
    requires forall k :: k in shelf ==> Convertible(shelf[k])
    ensures forall k :: k in shelf ==> shelf[k].accountInfo.Some?
    ensures var after := Done(map[], shelf, shelf.Keys, shelf.Keys);
      after.Keys == {"account_info", "password_expiration_date"} &&
      after["account_info"] == Table(Schema(COLUMNS, Some("key"), map[]),
                                     map k | k in shelf :: AccountRow(COLUMNS, k, shelf[k])) &&
      after["password_expiration_date"] == Table(Schema(DATE_COLUMNS, Some("key"), map[]),
                                                 map k | k in shelf :: DateRow(DATE_COLUMNS, k, shelf[k]))
  {
    EmptySchemas();
    EmptyPrepared();
    hide AccountRow, DateRow, Prepared, SchemasOf, ACCOUNT_INFO, PASSWORD_INFO, COLUMNS, DATE_COLUMNS, Gather, CellOf;
    var accounts := map k | k in shelf :: AccountRow(COLUMNS, k, shelf[k]);
    var dates := map k | k in shelf :: DateRow(DATE_COLUMNS, k, shelf[k]);
    assert NewAccounts(COLUMNS, shelf, shelf.Keys) == accounts;
    assert NewDates(DATE_COLUMNS, shelf, shelf.Keys) == dates;
    assert map[] + accounts == accounts && map[] + dates == dates;
    hide NewAccounts, NewDates;
  }

  lemma TableNamesAre()
    ensures ACCOUNT_TABLE == "account_info" && PASSWORD_TABLE == "password_expiration_date"
    ensures "account_info" != "password_expiration_date"
  {
    TableNames();
  }

  lemma EmptySchemas()
    ensures SchemasOf(map[]) == Schemas(Schema(COLUMNS, Some("key"), map[]), Schema(DATE_COLUMNS, Some("key"), map[]))
  {
    FreshSchemas(map[]);
    OwnKeys();
    ColumnsAre();
    DateNames();
    hide COLUMNS, DATE_COLUMNS, KEY_ITEM, ACCOUNT_INFO, PASSWORD_INFO, Columns, KeyName, SchemasOf;
  }

  lemma EmptyPrepared()
    ensures Prepared(map[]) == map["account_info" := Table(SchemasOf(map[]).accounts, map[]),
                                   "password_expiration_date" := Table(SchemasOf(map[]).dates, map[])]
    ensures "account_info" != "password_expiration_date"
    ensures ACCOUNT_TABLE == "account_info" && PASSWORD_TABLE == "password_expiration_date"
  {
    TableNamesAre();
    hide ACCOUNT_TABLE, PASSWORD_TABLE, ACCOUNT_INFO, PASSWORD_INFO, Columns, SchemaOf;
  }

  lemma EmptyAccount(key: string, entry: Entry)
    requires Convertible(entry)
    ensures entry.accountInfo.Some? && AccountSays(AccountRow(COLUMNS, key, entry), key, entry)
    ensures AccountRow(COLUMNS, key, entry).Keys == set c | c in COLUMNS :: c.name
  {
    assert entry.accountInfo.Some?;
    hide *;
    OwnTables(key, entry);
    StoredCells(OwnSchemas(), key, entry);
    OwnColumnsAre();
    BlankIs(COLUMNS);
  }

  lemma OwnColumnsAre()
    ensures OwnSchemas().accounts.columns == COLUMNS
  {
    ColumnsAre();
    hide COLUMNS, ACCOUNT_INFO, PASSWORD_INFO, Columns, KeyName;
  }

  lemma BlankIs(columns: seq<Column>)
    ensures Blank(columns).Keys == set c | c in columns :: c.name
  {
    BlankNames(columns);
    hide Blank;
    forall n | n in Blank(columns) ensures n in set c | c in columns :: c.name {
      var i :| 0 <= i < |columns| && columns[i].name == n;
      assert columns[i] in columns;
    }
    forall c | c in columns ensures c.name in Blank(columns) {
      var i :| 0 <= i < |columns| && columns[i] == c;
    }
  }

  lemma EmptyDate(key: string, entry: Entry)
    ensures DateRow(DATE_COLUMNS, key, entry) == map["key" := Some(key), "expDate" := entry.expDate]
  {
    DateNames();
    DateBound();
    ItemsStart();
    FilledDate(entry);
    hide PASSWORD_INFO, KEY_ITEM, DATE_ITEM, Filled, DateInfo;
    assert RowOf(PASSWORD_INFO, key, DateInfo(entry)) == map["expDate" := entry.expDate]["key" := Some(key)];
    BlankIs(DATE_COLUMNS);
    DateColumnNames();
    hide DATE_COLUMNS, Blank, RowOf;
  }

  lemma DateColumnNames()
    ensures (set c | c in DATE_COLUMNS :: c.name) == {"key", "expDate"}
  {
    assert DATE_COLUMNS[0] in DATE_COLUMNS && DATE_COLUMNS[1] in DATE_COLUMNS;
  }

  lemma FilledDate(entry: Entry)
    ensures PASSWORD_INFO != [] && Filled(PASSWORD_INFO[1..], DateInfo(entry)) == map["expDate" := entry.expDate]
  {
    DateNames();
    ItemsStart();
    DateBound();
    var info := DateInfo(entry);
    hide PASSWORD_INFO, KEY_ITEM, DATE_ITEM, Bound;
    assert [KEY_ITEM, DATE_ITEM][1..] == [DATE_ITEM] && [DATE_ITEM][..0] == [];
    FilledStep([DATE_ITEM], info);
    assert Filled([], info) == map[];
    assert CellOf(DATE_ITEM, info) == entry.expDate;
  }

  // ----- The application's tables -----

  lemma ApplicationIs()
    ensures var s := ApplicationSchemas();
      |s.accounts.columns| == |COLUMNS| == 25 && s.accounts.key == s.dates.key == Some("key") &&
      (forall i :: 0 <= i < 25 ==> s.accounts.columns[i] == Column(COLUMNS[i].name,
        if i == 0 then "TEXT NOT NULL" else if i == 9 then "DATE" else COLUMNS[i].decl)) &&
      s.accounts.checks == map["dbEffectiveOVM" := {"0", "1"}, "dbOpenAddressing" := {"0", "1"}] &&
      s.dates.columns == [Column("key", "TEXT NOT NULL"), Column("expDate", "TEXT")] && s.dates.checks == map[]
  {
    ColumnsAre();
    DateNames();
    FlagNamesAre();
    DeclsAre();
    DateColumnsOfApplication();
    hide ACCOUNT_INFO, COLUMNS, PASSWORD_INFO, KEY_ITEM, OVM_ITEM, OPEN_ITEM, ApplicationDecl;
    forall i | 0 <= i < 25
      ensures ApplicationColumns(ACCOUNT_INFO)[i] == Column(COLUMNS[i].name,
        if i == 0 then "TEXT NOT NULL" else if i == 9 then "DATE" else COLUMNS[i].decl)
    {
      assert Columns(ACCOUNT_INFO)[i] == Column(ACCOUNT_INFO[i].name, ACCOUNT_INFO[i].decl);
    }
  }

  lemma FlagNamesAre()
    ensures OVM_ITEM.name == "dbEffectiveOVM" && OPEN_ITEM.name == "dbOpenAddressing"
  {
  }

  lemma DateColumnsOfApplication()
    ensures ApplicationColumns(PASSWORD_INFO) == [Column("key", "TEXT NOT NULL"), Column("expDate", "TEXT")]
  {
    ItemsStart();
    assert ApplicationDecl(KEY_ITEM.decl) == "TEXT NOT NULL";
    PlainDecl("TEXT");
    hide PASSWORD_INFO, ApplicationDecl;
    assert [KEY_ITEM, DATE_ITEM][1..] == [DATE_ITEM];
  }

  lemma PlainDecl(decl: string)
    requires decl != "" && decl[0] != 'D' && |decl| < 25
    ensures ApplicationDecl(decl) == decl
  {
    assert |KEY_ITEM.decl| == 25;
  }

  lemma DeclsAre()
    ensures |COLUMNS| == 25
    ensures forall i :: 0 <= i < 25 ==>
      ApplicationDecl(COLUMNS[i].decl) ==
        if i == 0 then "TEXT NOT NULL" else if i == 9 then "DATE" else COLUMNS[i].decl
  {
    PlainDecl("TEXT");
    PlainDecl("TEXT NOT NULL");
    PlainDecl("INTEGER");
    PlainDecl("BOOLEAN");
    SpecialDecls();
    hide ApplicationDecl;
    DeclTexts();
    hide COLUMNS;
  }

  lemma SpecialDecls()
    ensures ApplicationDecl("TEXT NOT NULL PRIMARY KEY") == "TEXT NOT NULL" && ApplicationDecl("DATETIME") == "DATE"
  {
    assert |KEY_ITEM.decl| == 25;
  }

  lemma DeclTexts()
    ensures |COLUMNS| == 25
    ensures COLUMNS[0].decl == "TEXT NOT NULL PRIMARY KEY" && COLUMNS[9].decl == "DATETIME"
    ensures forall i :: 1 <= i < 25 && i != 9 ==> COLUMNS[i].decl in {"TEXT", "TEXT NOT NULL", "INTEGER", "BOOLEAN"}
  {
  }
}
