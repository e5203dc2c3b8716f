/** Which entries the tables take: the script's own, the application's, and tables that lack a column. */
module MigrationSchemas {
  import opened Text
  import opened Decimal
  import opened Sql
  import opened Migration
  import opened MigrationRows
  import opened MigrationTables
  import opened MigrationSteps
  import opened MigrationLaws

  // An account record is there, every attribute converts, and there is a box identifier.
  predicate Convertible(entry: Entry)
  {
    entry.accountInfo.Some? && Gather(ACCOUNT_INFO[1..], entry.accountInfo.value).Some? &&
    CellOf(ID_ITEM, entry.accountInfo.value).Some?
  }

  // ----- Tables the script creates -----

  function OwnSchemas(): (s: Schemas)
  {
    Schemas(SchemaOf(Columns(ACCOUNT_INFO)), SchemaOf(Columns(PASSWORD_INFO)))
  }

  // The script's own tables take exactly the entries that convert.
  lemma OwnTables(key: string, entry: Entry)
    ensures TakesAccount(OwnSchemas(), key, entry) <==> Convertible(entry)
    ensures TakesDate(OwnSchemas(), key, entry)
  {
    AccountDescribed();
    PasswordDescribed();
    PasswordSufficient(entry);
    OwnTakes(PASSWORD_INFO, key, DateInfo(entry));
    hide Described, Readable, Sufficient, Takes, ACCOUNT_INFO, PASSWORD_INFO, RowOf, CellOf, DateInfo, Columns,
      SchemaOf;
    if entry.accountInfo.Some? {
      var info := entry.accountInfo.value;
      OwnTakes(ACCOUNT_INFO, key, info);
      AccountReadable(info);
      AccountSufficient(info);
    }
  }

  lemma AccountReadable(info: map<string, PyValue>)
    ensures Gather(ACCOUNT_INFO[1..], info).Some? <==> Readable(ACCOUNT_INFO, info)
  {
    AccountDescribed();
    RestGathered(ACCOUNT_INFO, info);
    hide ACCOUNT_INFO, Gather, Readable, Distinct, Named;
  }

  // With no table there yet, the script succeeds exactly when every entry converts.
  lemma FreshTables(db: Db, shelf: Shelf)
    requires ACCOUNT_TABLE !in db && PASSWORD_TABLE !in db
    ensures Keyed(db) && SchemasOf(db) == OwnSchemas()
    ensures AllTaken(SchemasOf(db), shelf) <==> forall k :: k in shelf ==> Convertible(shelf[k])
  {
    TableNames();
    FreshSchemas(db);
    hide SchemasOf, OwnSchemas, TakesAccount, TakesDate, Convertible, ACCOUNT_TABLE, PASSWORD_TABLE;
    forall k | k in shelf ensures Taken(SchemasOf(db), shelf, k) <==> Convertible(shelf[k]) {
      OwnTables(k, shelf[k]);
    }
  }

  lemma FreshSchemas(db: Db)
    requires ACCOUNT_TABLE !in db && PASSWORD_TABLE !in db
    ensures SchemasOf(db) == OwnSchemas()
  {
    TableNames();
    hide ACCOUNT_TABLE, PASSWORD_TABLE, ACCOUNT_INFO, PASSWORD_INFO, Columns, SchemaOf;
  }

  // ----- Tables that ask for the same, but for checks -----

  ghost predicate Demanded(columns: seq<Column>, name: string)
  {
    exists c :: c in columns && NotNull(c) && c.name == name
  }

  lemma SameDemands(s: Schema, t: Schema, full: Row)
    requires Blank(s.columns).Keys == Blank(t.columns).Keys && s.key == t.key && t.checks == map[]
    requires forall n :: Demanded(s.columns, n) <==> Demanded(t.columns, n)
    ensures Takes(s, full) <==> Takes(t, full) && Checked(s, full)
  {
    assert Placed(s.columns, full) == Placed(t.columns, full);
    CompleteMeans(s.columns, Placed(s.columns, full));
    CompleteMeans(t.columns, Placed(s.columns, full));
    assert Fits(s, full) <==> Fits(t, full);
    if Fits(s, full) {
      CheckedPlaced(s, full);
    }
    hide Complete, Checked, Placed, Fits, Demanded, Blank;
  }

  lemma CompleteMeans(columns: seq<Column>, row: Row)
    ensures Complete(columns, row) <==> forall n :: Demanded(columns, n) ==> HasValue(row, n)
  {
    hide NotNull, HasValue;
    if forall n :: Demanded(columns, n) ==> HasValue(row, n) {
      forall c | c in columns && NotNull(c) ensures HasValue(row, c.name) {
        assert Demanded(columns, c.name);
      }
    }
  }

  lemma CheckedPlaced(s: Schema, full: Row)
    requires Fits(s, full)
    ensures Checked(s, Placed(s.columns, full)) <==> Checked(s, full)
  {
    var row := Placed(s.columns, full);
    hide Blank;
    forall n ensures HasValue(row, n) <==> HasValue(full, n) {
    }
    assert forall n :: HasValue(full, n) ==> row[n] == full[n];
    hide Placed, HasValue, Fits;
  }

  // ----- Tables the application creates -----

  // As the script declares them, but the primary key is a constraint on the table and the date of
  // birth is a DATE.
  function ApplicationDecl(decl: string): (d: string)
  {
    if decl == KEY_ITEM.decl then "TEXT NOT NULL" else if decl == "DATETIME" then "DATE" else decl
  }

  function ApplicationColumns(items: seq<Item>): (columns: seq<Column>)
    ensures |columns| == |items|
    ensures forall i :: 0 <= i < |items| ==> columns[i] == Column(items[i].name, ApplicationDecl(items[i].decl))
  {
    if items == [] then []
    else [Column(items[0].name, ApplicationDecl(items[0].decl))] + ApplicationColumns(items[1..])
  }

  function ApplicationSchemas(): (s: Schemas)
  {
    Schemas(Schema(ApplicationColumns(ACCOUNT_INFO), Some(KEY_ITEM.name),
                   map[OVM_ITEM.name := {"0", "1"}, OPEN_ITEM.name := {"0", "1"}]),
            Schema(ApplicationColumns(PASSWORD_INFO), Some(KEY_ITEM.name), map[]))
  }

  lemma NotNullAlike(name: string, decl: string)
    requires IsDecl(decl)
    ensures NotNull(Column(name, ApplicationDecl(decl))) <==> NotNull(Column(name, decl))
  {
    DeclMeans(name, decl);
    DeclMeans(name, "TEXT NOT NULL");
    KeyNotNull(name);
    DateMayBeNull(name);
    hide NotNull;
  }

  lemma KeyNotNull(name: string)
    ensures KEY_ITEM.decl == "TEXT NOT NULL PRIMARY KEY" && NotNull(Column(name, KEY_ITEM.decl))
  {
    assert KEY_ITEM.decl[5..13] == "NOT NULL";
    assert At(KEY_ITEM.decl, "NOT NULL", 5);
  }

  lemma DateMayBeNull(name: string)
    ensures !NotNull(Column(name, "DATE"))
  {
  }

  lemma {:induction false} ApplicationAlike(items: seq<Item>)
    requires forall i :: 0 <= i < |items| ==> IsDecl(items[i].decl)
    ensures var columns, own := ApplicationColumns(items), Columns(items);
      Blank(columns).Keys == Blank(own).Keys && forall n :: Demanded(columns, n) <==> Demanded(own, n)
  {
    var columns, own := ApplicationColumns(items), Columns(items);
    hide IsDecl, ApplicationDecl, NotNull;
    SameBlank(columns, own);
    forall i | 0 <= i < |items| ensures NotNull(columns[i]) <==> NotNull(own[i]) {
      NotNullAlike(items[i].name, items[i].decl);
    }
    DemandedSame(columns, own);
    DemandedSame(own, columns);
  }

  lemma DemandedSame(x: seq<Column>, y: seq<Column>)
    requires |x| == |y| && forall i :: 0 <= i < |x| ==> x[i].name == y[i].name && (NotNull(x[i]) <==> NotNull(y[i]))
    ensures forall n :: Demanded(x, n) ==> Demanded(y, n)
  {
    hide NotNull;
    forall n | Demanded(x, n) ensures Demanded(y, n) {
      var c :| c in x && NotNull(c) && c.name == n;
      var i :| 0 <= i < |x| && x[i] == c;
      assert y[i] in y;
    }
  }

  lemma {:induction false} SameBlank(x: seq<Column>, y: seq<Column>)
    requires |x| == |y| && forall i :: 0 <= i < |x| ==> x[i].name == y[i].name
    ensures Blank(x).Keys == Blank(y).Keys
  {
    if x == [] {
    } else {
      SameBlank(x[1..], y[1..]);
    }
  }

  // A flag is not given, or comes out as one of the two texts the application's table allows.
  predicate FlagFits(item: Item, info: map<string, PyValue>)
  {
    CellOf(item, info) in {None, Some("0"), Some("1")}
  }

  predicate FlagsFit(info: map<string, PyValue>) { FlagFits(OVM_ITEM, info) && FlagFits(OPEN_ITEM, info) }

  predicate Conforming(entry: Entry) { Convertible(entry) && FlagsFit(entry.accountInfo.value) }

  // The application's tables take exactly the entries that convert and whose two flags come out as
  // 0 or 1.
  lemma ApplicationTables(key: string, entry: Entry)
    ensures TakesDate(ApplicationSchemas(), key, entry)
    ensures TakesAccount(ApplicationSchemas(), key, entry) <==>
      Conforming(entry)
  {
    OwnTables(key, entry);
    OwnKeys();
    AlikeTables();
    SameDemands(ApplicationSchemas().dates, OwnSchemas().dates, RowOf(PASSWORD_INFO, key, DateInfo(entry)));
    if entry.accountInfo.Some? {
      SameDemands(ApplicationSchemas().accounts, OwnSchemas().accounts,
                  RowOf(ACCOUNT_INFO, key, entry.accountInfo.value));
      FlagsChecked(key, entry.accountInfo.value);
    }
    hide Takes, ACCOUNT_INFO, PASSWORD_INFO, RowOf, CellOf, ApplicationColumns, Columns, Convertible, FlagsFit,
      Readable, Blank, Demanded, OVM_ITEM, OPEN_ITEM;
  }

  // With both tables as the application creates them, the script succeeds exactly when every entry
  // converts and has flags that fit.
  lemma ApplicationRun(db: Db, shelf: Shelf)
    requires ACCOUNT_TABLE in db && PASSWORD_TABLE in db
    requires Schemas(db[ACCOUNT_TABLE].schema, db[PASSWORD_TABLE].schema) == ApplicationSchemas()
    ensures Keyed(db) && SchemasOf(db) == ApplicationSchemas()
    ensures AllTaken(SchemasOf(db), shelf) <==>
      forall k :: k in shelf ==> Conforming(shelf[k])
  {
    hide ACCOUNT_TABLE, PASSWORD_TABLE, ACCOUNT_INFO, PASSWORD_INFO, KEY_ITEM, OVM_ITEM, OPEN_ITEM, ApplicationColumns,
      TakesAccount, TakesDate, Conforming;
    assert Keyed(db) && SchemasOf(db) == ApplicationSchemas();
    hide SchemasOf, Keyed;
    forall k | k in shelf ensures Taken(SchemasOf(db), shelf, k) <==> Conforming(shelf[k]) {
      ApplicationTables(k, shelf[k]);
    }
  }

  lemma OwnKeys()
    ensures OwnSchemas().accounts.key == OwnSchemas().dates.key == Some(KEY_ITEM.name)
  {
    AccountDescribed();
    PasswordDescribed();
    ItemsStart();
    hide ACCOUNT_INFO, PASSWORD_INFO, Columns, KeyName, Distinct, Named, KEY_ITEM;
  }

  lemma AlikeTables()
    ensures var s, own := ApplicationSchemas(), OwnSchemas();
      Blank(s.accounts.columns).Keys == Blank(own.accounts.columns).Keys &&
      Blank(s.dates.columns).Keys == Blank(own.dates.columns).Keys &&
      (forall n :: Demanded(s.accounts.columns, n) <==> Demanded(own.accounts.columns, n)) &&
      forall n :: Demanded(s.dates.columns, n) <==> Demanded(own.dates.columns, n)
  {
    AccountDecls();
    PasswordDecls();
    hide ACCOUNT_INFO, PASSWORD_INFO, ApplicationColumns, Columns, Blank, Demanded, IsDecl, KEY_ITEM, ID_ITEM;
    ApplicationAlike(ACCOUNT_INFO);
    ApplicationAlike(PASSWORD_INFO);
  }

  lemma PasswordDecls()
    ensures forall i :: 0 <= i < |PASSWORD_INFO| ==> IsDecl(PASSWORD_INFO[i].decl)
  {
  }

  lemma FlagsChecked(key: string, info: map<string, PyValue>)
    ensures Checked(ApplicationSchemas().accounts, RowOf(ACCOUNT_INFO, key, info)) <==>
      FlagsFit(info)
    ensures Checked(ApplicationSchemas().dates, RowOf(PASSWORD_INFO, key, info))
  {
    FlagCells(key, info);
    hide ACCOUNT_INFO, PASSWORD_INFO, RowOf, CellOf, ApplicationColumns, OVM_ITEM, OPEN_ITEM, KEY_ITEM;
    TwoChecks(RowOf(ACCOUNT_INFO, key, info), OVM_ITEM.name, OPEN_ITEM.name, {"0", "1"});
  }

  lemma FlagCells(key: string, info: map<string, PyValue>)
    ensures ACCOUNT_INFO != [] && OVM_ITEM.name != OPEN_ITEM.name
    ensures var full := RowOf(ACCOUNT_INFO, key, info);
      OVM_ITEM.name in full && full[OVM_ITEM.name] == CellOf(OVM_ITEM, info) &&
      OPEN_ITEM.name in full && full[OPEN_ITEM.name] == CellOf(OPEN_ITEM, info)
  {
    AccountDescribed();
    DescribedKey(ACCOUNT_INFO);
    FlagItems();
    hide *;
    RowCells(ACCOUNT_INFO, key, info);
  }

  lemma TwoChecks(full: Row, x: string, y: string, texts: set<string>)
    requires x != y && x in full && y in full
    ensures forall columns, key ::
      Checked(Schema(columns, key, map[x := texts, y := texts]), full) <==>
      (full[x].Some? ==> full[x].value in texts) && (full[y].Some? ==> full[y].value in texts)
  {
  }

  lemma FlagItems()
    ensures |ACCOUNT_INFO| == 25 && ACCOUNT_INFO[23] == OVM_ITEM && ACCOUNT_INFO[24] == OPEN_ITEM
    ensures OVM_ITEM.name != OPEN_ITEM.name
  {
    assert |OVM_ITEM.name| == 14 && |OPEN_ITEM.name| == 16;
  }

  // None, a truth value, or 0 or 1 fits; another number does not.
  lemma FlagMeans(item: Item, info: map<string, PyValue>)
    requires item.name in info && item.pyType == PyBool && item.target == PyInt
    ensures info[item.name] == PyNone || info[item.name].Bool? ==> FlagFits(item, info)
    ensures info[item.name].Int? ==> (FlagFits(item, info) <==> info[item.name].n in {0, 1})
  {
    var v := info[item.name];
    if v.Int? {
      PrintBit(v.n);
    }
    PrintBit(0);
    PrintBit(1);
  }

  lemma PrintBit(n: int)
    ensures PrintInt(0) == "0" && PrintInt(1) == "1"
    ensures PrintInt(n) in {"0", "1"} ==> n in {0, 1}
  {
    if n < 0 {
      assert PrintInt(n)[0] == '-';
    } else if n >= 10 {
      assert |Print(n)| >= 2;
    }
  }

  // ----- Tables that lack a column -----

  // An entry with an attribute for which the account table has no column stops the script.
  lemma MissingColumn(db: Db, shelf: Shelf, keys: seq<string>, k: string, i: nat)
    requires k in keys && k in shelf && shelf[k].accountInfo.Some? && 1 <= i < |ACCOUNT_INFO|
    requires CellOf(ACCOUNT_INFO[i], shelf[k].accountInfo.value).Some?
    requires ACCOUNT_INFO[i].name !in Blank(SchemasOf(db).accounts.columns)
    ensures !Completes(db, Commands(shelf, keys))
  {
    var info := shelf[k].accountInfo.value;
    AccountDescribed();
    RowCells(ACCOUNT_INFO, k, info);
    assert HasValue(RowOf(ACCOUNT_INFO, k, info), ACCOUNT_INFO[i].name);
    hide ACCOUNT_INFO, SchemasOf, Completes, Commands, Keyed, RowOf, CellOf, Readable, Admits, Blank;
    CompletesIff(db, shelf, keys);
  }

  // A date for which the other table has no column stops the script between the two commits of its
  // key: the account is in, the date is not.
  lemma MissingDateColumn(db: Db, shelf: Shelf, k: string)
    requires Keyed(db) && AccountTaken(SchemasOf(db), shelf, k) && shelf[k].expDate.Some?
    requires DATE_ITEM.name !in Blank(SchemasOf(db).dates.columns)
    ensures !Completes(db, Commands(shelf, [k])) && Final(db, Commands(shelf, [k])) == Done(db, shelf, {k}, {})
  {
    DateHasValue(k, shelf[k]);
    hide DATE_ITEM, SchemasOf, Completes, Commands, Keyed, RowOf, Admits, Blank, Done, Final, TakesAccount, DateInfo;
    assert !Taken(SchemasOf(db), shelf, k);
    hide Takes, TakesDate, Taken, AccountTaken;
    HalfTaken(SchemasOf(db), shelf, k);
    CompletesIff(db, shelf, [k]);
    RunLeaves(db, shelf, [k]);
    EndOf(db, SchemasOf(db), shelf, [k]);
  }

  lemma DateHasValue(key: string, entry: Entry)
    requires entry.expDate.Some?
    ensures HasValue(RowOf(PASSWORD_INFO, key, DateInfo(entry)), DATE_ITEM.name)
  {
    var info := DateInfo(entry);
    PasswordDescribed();
    ItemsStart();
    DateBound();
    hide PASSWORD_INFO, DATE_ITEM, RowOf, Bound;
    RowCells([KEY_ITEM, DATE_ITEM], key, info);
    assert [KEY_ITEM, DATE_ITEM][1] == DATE_ITEM;
  }

  lemma HalfTaken(s: Schemas, shelf: Shelf, k: string)
    requires AccountTaken(s, shelf, k) && !Taken(s, shelf, k)
    ensures Good(s, shelf, [k]) == 0 && Reached(s, shelf, [k]) == 1 && k in [k]
    ensures KeySet([k][..1]) == {k} && KeySet([k][..0]) == {}
  {
    hide TakesAccount, TakesDate;
    assert [k][..1] == [k] && [k][..0] == [];
  }

  // With another primary key, the row of a user is stored not under the user but under the text of
  // that attribute: users who share it overwrite each other.
  lemma KeyedOtherwise(db: Db, shelf: Shelf, k: string, i: nat)
    requires ACCOUNT_TABLE in db && PASSWORD_TABLE in db && AccountTaken(SchemasOf(db), shelf, k)
    requires 1 <= i < |ACCOUNT_INFO| && db[ACCOUNT_TABLE].schema.key == Some(ACCOUNT_INFO[i].name)
    ensures var cell := CellOf(ACCOUNT_INFO[i], shelf[k].accountInfo.value);
      cell.Some? && Step(db, AccountOf(shelf, k)) ==
        Some(Put(db, ACCOUNT_TABLE, cell.value, AccountRow(db[ACCOUNT_TABLE].schema.columns, k, shelf[k])))
  {
    AccountStores(db, shelf, k);
    SchemasThere(db);
    AccountDescribed();
    DescribedKey(ACCOUNT_INFO);
    RowCells(ACCOUNT_INFO, k, shelf[k].accountInfo.value);
    hide ACCOUNT_INFO, ACCOUNT_TABLE, PASSWORD_TABLE, SchemasOf, Step, RowOf, Readable, CellOf, Described, Distinct,
      Complete, Checked, AccountOf, Blank;
  }

  // A record with no attribute but its box identifier.
  function Nones(items: seq<Item>): (info: map<string, PyValue>)
    ensures forall i :: 0 <= i < |items| ==> items[i].name in info
    ensures forall n :: n in info ==> info[n] == PyNone
  {
    if items == [] then map[] else Nones(items[1..])[items[0].name := PyNone]
  }

  function Bare(id: string): (entry: Entry)
  {
    Entry(Some(Nones(ACCOUNT_INFO)[ID_ITEM.name := Str(id)]), None)
  }

  // A database whose account table has the key for its only column: the entry converts, and still
  // the script does not succeed.
  lemma NarrowTable(id: string)
    ensures var db: Db := map[ACCOUNT_TABLE := Table(SchemaOf([Column(KEY_ITEM.name, KEY_ITEM.decl)]), map[])];
      Keyed(db) && Convertible(Bare(id)) && !Completes(db, Commands(map["user" := Bare(id)], ["user"]))
  {
    var columns := [Column(KEY_ITEM.name, KEY_ITEM.decl)];
    var db: Db := map[ACCOUNT_TABLE := Table(SchemaOf(columns), map[])];
    var shelf: Shelf := map["user" := Bare(id)];
    BareConverts(id);
    NarrowKeyed(db);
    AccountDecls();
    OtherNames(columns);
    hide ACCOUNT_INFO, KEY_ITEM, ID_ITEM, Bare, Convertible, Completes, Commands, Keyed, SchemasOf, SchemaOf, Blank,
      CellOf, IsDecl;
    assert "user" in ["user"];
    MissingColumn(db, shelf, ["user"], "user", 1);
  }

  lemma NarrowKeyed(db: Db)
    requires db == map[ACCOUNT_TABLE := Table(SchemaOf([Column(KEY_ITEM.name, KEY_ITEM.decl)]), map[])]
    ensures Keyed(db) && SchemasOf(db).accounts == SchemaOf([Column(KEY_ITEM.name, KEY_ITEM.decl)])
  {
    KeyDecl();
    TableNames();
    hide KEY_ITEM, Contains, ACCOUNT_TABLE, PASSWORD_TABLE, Columns, ACCOUNT_INFO, PASSWORD_INFO;
  }

  lemma OtherNames(columns: seq<Column>)
    requires columns == [Column(KEY_ITEM.name, KEY_ITEM.decl)]
    ensures ID_ITEM.name !in Blank(columns)
  {
    assert KEY_ITEM.name[0] == 'k' && ID_ITEM.name[0] == 'd';
    BlankNames(columns);
    hide KEY_ITEM, ID_ITEM, Blank;
  }

  lemma BareConverts(id: string)
    ensures Convertible(Bare(id)) && CellOf(ID_ITEM, Bare(id).accountInfo.value) == Some(id)
  {
    var info := Bare(id).accountInfo.value;
    IdBound(id);
    AccountReadable(info);
    hide ACCOUNT_INFO, ID_ITEM, Gather, Bound;
    forall i | 1 <= i < |ACCOUNT_INFO| ensures Reads(ACCOUNT_INFO[i], info) {
    }
  }

  lemma IdBound(id: string)
    ensures Bound(ID_ITEM, Str(id)) == Some(id)
    ensures forall i :: 0 <= i < |ACCOUNT_INFO| && ACCOUNT_INFO[i].name == ID_ITEM.name ==> ACCOUNT_INFO[i] == ID_ITEM
  {
    AccountDescribed();
    AccountDecls();
    hide ACCOUNT_INFO, IsDecl, Named;
  }
}
