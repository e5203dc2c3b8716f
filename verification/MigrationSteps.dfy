/** What single statements and whole runs of the migration put into the tables: a map override. */
module MigrationSteps {
  import opened Text
  import opened Sql
  import opened Migration
  import opened MigrationRows
  import opened MigrationTables

  type Shelf = map<string, Entry>

  // ----- The tables there are, or will be -----

  function Created(db: Db, table: string, items: seq<Item>): (after: Db)
  {
    if table in db then db else db[table := Table(SchemaOf(Columns(items)), map[])]
  }

  function WithAccounts(db: Db): (after: Db) { Created(db, ACCOUNT_TABLE, ACCOUNT_INFO) }

  function Prepared(db: Db): (after: Db)
    ensures ACCOUNT_TABLE in after && PASSWORD_TABLE in after
  {
    Created(WithAccounts(db), PASSWORD_TABLE, PASSWORD_INFO)
  }

  // What the two tables demand once they are there; a run never changes it.
  datatype Schemas = Schemas(accounts: Schema, dates: Schema)

  function SchemasOf(db: Db): (schemas: Schemas)
  {
    Schemas(Prepared(db)[ACCOUNT_TABLE].schema, Prepared(db)[PASSWORD_TABLE].schema)
  }

  // Tables that are already there have the column `key` as their primary key, as all that the
  // script or the application creates have.
  predicate Keyed(db: Db)
  {
    (ACCOUNT_TABLE in db ==> db[ACCOUNT_TABLE].schema.key == Some(KEY_ITEM.name)) &&
    (PASSWORD_TABLE in db ==> db[PASSWORD_TABLE].schema.key == Some(KEY_ITEM.name))
  }

  // ----- Which entries they take -----

  // An account record is there, every attribute converts, and the table takes the row.
  ghost predicate TakesAccount(s: Schemas, key: string, entry: Entry)
  {
    entry.accountInfo.Some? && Readable(ACCOUNT_INFO, entry.accountInfo.value) &&
    Takes(s.accounts, RowOf(ACCOUNT_INFO, key, entry.accountInfo.value))
  }

  ghost predicate TakesDate(s: Schemas, key: string, entry: Entry)
  {
    Takes(s.dates, RowOf(PASSWORD_INFO, key, DateInfo(entry)))
  }

  ghost predicate AccountTaken(s: Schemas, shelf: Shelf, k: string)
  {
    k in shelf && TakesAccount(s, k, shelf[k])
  }

  ghost predicate Taken(s: Schemas, shelf: Shelf, k: string)
  {
    AccountTaken(s, shelf, k) && TakesDate(s, k, shelf[k])
  }

  // ----- The reference: a map override -----

  function AccountRow(columns: seq<Column>, key: string, entry: Entry): (row: Row)
    requires entry.accountInfo.Some?
  {
    Placed(columns, RowOf(ACCOUNT_INFO, key, entry.accountInfo.value))
  }

  function DateRow(columns: seq<Column>, key: string, entry: Entry): (row: Row)
  {
    Placed(columns, RowOf(PASSWORD_INFO, key, DateInfo(entry)))
  }

  function Overridden(db: Db, table: string, rows: map<string, Row>): (after: Db)
    requires table in db
  {
    db[table := db[table].(rows := db[table].rows + rows)]
  }

  function NewAccounts(columns: seq<Column>, shelf: Shelf, ks: set<string>): (rows: map<string, Row>)
  {
    map k | k in ks && k in shelf && shelf[k].accountInfo.Some? :: AccountRow(columns, k, shelf[k])
  }

  function NewDates(columns: seq<Column>, shelf: Shelf, ks: set<string>): (rows: map<string, Row>)
  {
    map k | k in ks && k in shelf :: DateRow(columns, k, shelf[k])
  }

  // The tables are there; the accounts of the keys in `a` and the dates of those in `p` are in.
  function Done(db: Db, shelf: Shelf, a: set<string>, p: set<string>): (after: Db)
  {
    var s := SchemasOf(db);
    Overridden(Overridden(Prepared(db), ACCOUNT_TABLE, NewAccounts(s.accounts.columns, shelf, a)),
               PASSWORD_TABLE, NewDates(s.dates.columns, shelf, p))
  }

  // ----- The demands of the tables stay -----

  lemma OverriddenSchema(r: Db, t: string, rows: map<string, Row>)
    requires t in r
    ensures Overridden(r, t, rows).Keys == r.Keys
    ensures forall u :: u in r ==> Overridden(r, t, rows)[u].schema == r[u].schema
  {
  }

  lemma PreparedOnce(db: Db)
    ensures Prepared(WithAccounts(db)) == Prepared(db)
    ensures forall r: Db :: ACCOUNT_TABLE in r && PASSWORD_TABLE in r ==> Prepared(r) == r && WithAccounts(r) == r
  {
    hide ACCOUNT_TABLE, PASSWORD_TABLE, ACCOUNT_INFO, PASSWORD_INFO, Columns, SchemaOf;
  }

  lemma SchemasStay(db: Db, shelf: Shelf, a: set<string>, p: set<string>)
    ensures ACCOUNT_TABLE in Done(db, shelf, a, p) && PASSWORD_TABLE in Done(db, shelf, a, p)
    ensures Prepared(Done(db, shelf, a, p)) == Done(db, shelf, a, p)
    ensures WithAccounts(Done(db, shelf, a, p)) == Done(db, shelf, a, p)
    ensures SchemasOf(Done(db, shelf, a, p)) == SchemasOf(db) == SchemasOf(WithAccounts(db))
    ensures Done(db, shelf, a, p)[ACCOUNT_TABLE].schema == SchemasOf(db).accounts
    ensures Done(db, shelf, a, p)[PASSWORD_TABLE].schema == SchemasOf(db).dates
  {
    var s, r := SchemasOf(db), Prepared(db);
    PreparedOnce(db);
    hide Overridden, Prepared, WithAccounts, NewAccounts, NewDates;
    var accounts, dates := NewAccounts(s.accounts.columns, shelf, a), NewDates(s.dates.columns, shelf, p);
    OverriddenSchema(r, ACCOUNT_TABLE, accounts);
    OverriddenSchema(Overridden(r, ACCOUNT_TABLE, accounts), PASSWORD_TABLE, dates);
  }

  lemma KeyedStays(db: Db, shelf: Shelf, a: set<string>, p: set<string>)
    requires Keyed(db)
    ensures SchemasOf(db).accounts.key == SchemasOf(db).dates.key == Some(KEY_ITEM.name)
    ensures Keyed(WithAccounts(db)) && Keyed(Done(db, shelf, a, p))
  {
    TableNames();
    AccountDescribed();
    PasswordDescribed();
    ItemsStart();
    SchemasStay(db, shelf, a, p);
    hide ACCOUNT_TABLE, PASSWORD_TABLE, ACCOUNT_INFO, PASSWORD_INFO, Columns, KeyName, Done, KEY_ITEM, Distinct, Named;
  }

  lemma ItemsStart()
    ensures ACCOUNT_INFO != [] && ACCOUNT_INFO[0] == KEY_ITEM
    ensures PASSWORD_INFO == [KEY_ITEM, DATE_ITEM]
  {
  }

  // ----- Single steps -----

  lemma CreateStep(db: Db, table: string, items: seq<Item>)
    requires '(' !in table && Described(items)
    ensures Step(db, CreateCommand(table, items)) == Some(Created(db, table, items))
  {
    CreateReads(table, Columns(items));
    hide Parse, CreateText, Columns, Described;
  }

  // Stored at its own key, the row made from an entry goes to the key of the entry.
  lemma StoredAtKey(db: Db, table: string, items: seq<Item>, key: string, info: map<string, PyValue>)
    requires table in db && items != [] && db[table].schema.key == Some(items[0].name)
    requires Takes(db[table].schema, RowOf(items, key, info))
    ensures var row := Placed(db[table].schema.columns, RowOf(items, key, info));
      Stored(db, table, row) == Put(db, table, key, row)
  {
    FullRow(items, key, info);
    hide RowOf, Complete, Checked, Blank;
  }

  function Put(db: Db, table: string, key: string, row: Row): (after: Db)
    requires table in db
  {
    db[table := db[table].(rows := db[table].rows[key := row])]
  }

  lemma AccountStep(db: Db, shelf: Shelf, a: set<string>, p: set<string>, k: string)
    requires Keyed(db)
    ensures Step(Done(db, shelf, a, p), AccountOf(shelf, k)) ==
      if AccountTaken(SchemasOf(db), shelf, k) then Some(Done(db, shelf, a + {k}, p)) else None
  {
    var d := Done(db, shelf, a, p);
    KeyedStays(db, shelf, a, p);
    SchemasStay(db, shelf, a, p);
    TableNames();
    AccountDescribed();
    ItemsStart();
    hide Described, Takes, RowOf, Readable, Placed, ACCOUNT_INFO, ACCOUNT_TABLE, KEY_ITEM, Done, SchemasOf, Step,
      Stored, Put, Keyed, RowCommand;
    if k in shelf && shelf[k].accountInfo.Some? {
      var info := shelf[k].accountInfo.value;
      RowExecutes(d, ACCOUNT_TABLE, ACCOUNT_INFO, k, info);
      if AccountTaken(SchemasOf(db), shelf, k) {
        StoredAtKey(d, ACCOUNT_TABLE, ACCOUNT_INFO, k, info);
        PutAccount(db, shelf, a, p, k);
      }
    } else {
      NoStep(d);
    }
  }

  lemma NoStep(db: Db)
    ensures Step(db, None) == None
  {
  }

  lemma PutAccount(db: Db, shelf: Shelf, a: set<string>, p: set<string>, k: string)
    requires k in shelf && shelf[k].accountInfo.Some?
    ensures ACCOUNT_TABLE in Done(db, shelf, a, p)
    ensures Put(Done(db, shelf, a, p), ACCOUNT_TABLE, k, AccountRow(SchemasOf(db).accounts.columns, k, shelf[k])) ==
      Done(db, shelf, a + {k}, p)
  {
    TableNames();
    hide AccountRow, Prepared, Overridden, ACCOUNT_TABLE, PASSWORD_TABLE;
    var columns := SchemasOf(db).accounts.columns;
    var row := AccountRow(columns, k, shelf[k]);
    assert NewAccounts(columns, shelf, a + {k}) == NewAccounts(columns, shelf, a)[k := row];
    PutFirst(Prepared(db), ACCOUNT_TABLE, PASSWORD_TABLE, NewAccounts(columns, shelf, a),
             NewDates(SchemasOf(db).dates.columns, shelf, p), k, row);
  }

  lemma PutSame(r: Db, t: string, rows: map<string, Row>, k: string, row: Row)
    requires t in r
    ensures Overridden(r, t, rows).Keys == r.Keys
    ensures Put(Overridden(r, t, rows), t, k, row) == Overridden(r, t, rows[k := row])
  {
    assert r[t].rows + rows[k := row] == (r[t].rows + rows)[k := row];
  }

  lemma PutOther(r: Db, t: string, u: string, others: map<string, Row>, k: string, row: Row)
    requires t in r && u in r && t != u
    ensures Put(r, t, k, row).Keys == Overridden(r, u, others).Keys == r.Keys
    ensures Put(Overridden(r, u, others), t, k, row) == Overridden(Put(r, t, k, row), u, others)
  {
  }

  lemma PutFirst(r: Db, t: string, u: string, rows: map<string, Row>, others: map<string, Row>, k: string, row: Row)
    requires t in r && u in r && t != u
    ensures u in Overridden(r, t, rows) && u in Overridden(r, t, rows[k := row])
    ensures t in Overridden(Overridden(r, t, rows), u, others)
    ensures Put(Overridden(Overridden(r, t, rows), u, others), t, k, row) ==
      Overridden(Overridden(r, t, rows[k := row]), u, others)
  {
    hide Put, Overridden;
    PutSame(r, t, rows, k, row);
    PutSame(r, t, rows[k := row], k, row);
    PutOther(Overridden(r, t, rows), t, u, others, k, row);
  }

  lemma DateStep(db: Db, shelf: Shelf, a: set<string>, p: set<string>, k: string)
    requires Keyed(db) && k in shelf
    ensures Step(Done(db, shelf, a, p), DateOf(shelf, k)) ==
      if TakesDate(SchemasOf(db), k, shelf[k]) then Some(Done(db, shelf, a, p + {k})) else None
  {
    var d, info := Done(db, shelf, a, p), DateInfo(shelf[k]);
    KeyedStays(db, shelf, a, p);
    SchemasStay(db, shelf, a, p);
    TableNames();
    PasswordDescribed();
    PasswordSufficient(shelf[k]);
    ItemsStart();
    hide Described, Takes, RowOf, Readable, Placed, PASSWORD_INFO, PASSWORD_TABLE, KEY_ITEM, Done, SchemasOf, Step,
      Stored, Put, Keyed, RowCommand, DateInfo;
    RowExecutes(d, PASSWORD_TABLE, PASSWORD_INFO, k, info);
    if TakesDate(SchemasOf(db), k, shelf[k]) {
      StoredAtKey(d, PASSWORD_TABLE, PASSWORD_INFO, k, info);
      PutDate(db, shelf, a, p, k);
    }
  }

  lemma PutDate(db: Db, shelf: Shelf, a: set<string>, p: set<string>, k: string)
    requires k in shelf
    ensures PASSWORD_TABLE in Done(db, shelf, a, p)
    ensures Put(Done(db, shelf, a, p), PASSWORD_TABLE, k, DateRow(SchemasOf(db).dates.columns, k, shelf[k])) ==
      Done(db, shelf, a, p + {k})
  {
    TableNames();
    hide DateRow, Prepared, Overridden, ACCOUNT_TABLE, PASSWORD_TABLE;
    var columns, accounts := SchemasOf(db).dates.columns, NewAccounts(SchemasOf(db).accounts.columns, shelf, a);
    var row := DateRow(columns, k, shelf[k]);
    assert NewDates(columns, shelf, p + {k}) == NewDates(columns, shelf, p)[k := row];
    PutSame(Prepared(db), ACCOUNT_TABLE, accounts, k, row);
    PutSame(Overridden(Prepared(db), ACCOUNT_TABLE, accounts), PASSWORD_TABLE, NewDates(columns, shelf, p), k, row);
  }

  // ----- Doing and doing again -----

  lemma NothingDone(db: Db, shelf: Shelf)
    ensures Done(db, shelf, {}, {}) == Prepared(db)
  {
    TableNames();
    hide ACCOUNT_TABLE, PASSWORD_TABLE, AccountRow, DateRow, Prepared;
    var r, s := Prepared(db), SchemasOf(db);
    assert NewAccounts(s.accounts.columns, shelf, {}) == map[] && NewDates(s.dates.columns, shelf, {}) == map[];
    assert r[ACCOUNT_TABLE].rows + map[] == r[ACCOUNT_TABLE].rows;
    assert r[PASSWORD_TABLE].rows + map[] == r[PASSWORD_TABLE].rows;
    assert r[ACCOUNT_TABLE := r[ACCOUNT_TABLE]] == r && r[PASSWORD_TABLE := r[PASSWORD_TABLE]] == r;
  }

  lemma DoneCreated(db: Db, shelf: Shelf, a: set<string>, p: set<string>)
    ensures Done(WithAccounts(db), shelf, a, p) == Done(db, shelf, a, p)
  {
    PreparedOnce(db);
    hide Prepared, WithAccounts;
  }

  lemma OverrideSame(r: Db, t: string, x: map<string, Row>, y: map<string, Row>)
    requires t in r
    ensures Overridden(r, t, x).Keys == r.Keys
    ensures Overridden(Overridden(r, t, x), t, y) == Overridden(r, t, x + y)
  {
    assert r[t].rows + (x + y) == (r[t].rows + x) + y;
  }

  lemma OverrideSwap(r: Db, t: string, u: string, x: map<string, Row>, y: map<string, Row>)
    requires t in r && u in r && t != u
    ensures Overridden(r, t, x).Keys == Overridden(r, u, y).Keys == r.Keys
    ensures Overridden(Overridden(r, t, x), u, y) == Overridden(Overridden(r, u, y), t, x)
  {
  }

  lemma OverriddenTwice(r: Db, t: string, u: string, x: map<string, Row>, y: map<string, Row>,
      x2: map<string, Row>, y2: map<string, Row>)
    requires t in r && u in r && t != u
    ensures u in Overridden(r, t, x) && t in Overridden(Overridden(r, t, x), u, y)
    ensures u in Overridden(Overridden(Overridden(r, t, x), u, y), t, x2) && u in Overridden(r, t, x + x2)
    ensures Overridden(Overridden(Overridden(Overridden(r, t, x), u, y), t, x2), u, y2) ==
      Overridden(Overridden(r, t, x + x2), u, y + y2)
  {
    hide Overridden;
    OverrideSame(r, t, x, x2);
    OverrideSame(r, t, x + x2, x2);
    OverrideSwap(Overridden(r, t, x), u, t, y, x2);
    OverrideSame(Overridden(r, t, x + x2), u, y, y2);
  }

  // Doing more on top of what is done, perhaps from another shelf.
  lemma DoneOver(db: Db, first: Shelf, a: set<string>, p: set<string>, shelf: Shelf, b: set<string>, q: set<string>)
    ensures var s, r := SchemasOf(db), Prepared(db);
      var accounts :=
        NewAccounts(s.accounts.columns, first, a) + NewAccounts(s.accounts.columns, shelf, b);
      var dates := NewDates(s.dates.columns, first, p) + NewDates(s.dates.columns, shelf, q);
      PASSWORD_TABLE in Overridden(r, ACCOUNT_TABLE, accounts) &&
      Done(Done(db, first, a, p), shelf, b, q) ==
        Overridden(Overridden(r, ACCOUNT_TABLE, accounts), PASSWORD_TABLE, dates)
  {
    TableNames();
    SchemasStay(db, first, a, p);
    OverriddenSchema(Prepared(db), ACCOUNT_TABLE, map[]);
    hide NewAccounts, NewDates, Prepared, Overridden, ACCOUNT_TABLE, PASSWORD_TABLE;
    var accounts, dates := SchemasOf(db).accounts.columns, SchemasOf(db).dates.columns;
    OverriddenTwice(Prepared(db), ACCOUNT_TABLE, PASSWORD_TABLE, NewAccounts(accounts, first, a),
                    NewDates(dates, first, p), NewAccounts(accounts, shelf, b), NewDates(dates, shelf, q));
  }

  // Doing more from the same shelf is doing all of it at once.
  lemma DoneAgain(db: Db, shelf: Shelf, a: set<string>, p: set<string>, b: set<string>, q: set<string>)
    ensures Done(Done(db, shelf, a, p), shelf, b, q) == Done(db, shelf, a + b, p + q)
  {
    DoneOver(db, shelf, a, p, shelf, b, q);
    UnionRows(SchemasOf(db), shelf, a, b);
    UnionRows(SchemasOf(db), shelf, p, q);
    hide NewAccounts, NewDates, Prepared, Overridden, ACCOUNT_TABLE, PASSWORD_TABLE, SchemasOf;
  }

  lemma UnionRows(s: Schemas, shelf: Shelf, a: set<string>, b: set<string>)
    ensures NewAccounts(s.accounts.columns, shelf, a + b) ==
      NewAccounts(s.accounts.columns, shelf, a) + NewAccounts(s.accounts.columns, shelf, b)
    ensures NewDates(s.dates.columns, shelf, a + b) ==
      NewDates(s.dates.columns, shelf, a) + NewDates(s.dates.columns, shelf, b)
  {
    hide AccountRow, DateRow;
  }

  // New rows at all these keys leave nothing of what was done at any of them before.
  lemma DoneCovers(db: Db, first: Shelf, a: set<string>, p: set<string>, shelf: Shelf, b: set<string>)
    requires p <= a <= b && forall k :: k in b ==> k in shelf && shelf[k].accountInfo.Some?
    ensures Done(Done(db, first, a, p), shelf, b, b) == Done(db, shelf, b, b)
  {
    DoneOver(db, first, a, p, shelf, b, b);
    CoveredRows(SchemasOf(db), first, a, p, shelf, b);
    hide NewAccounts, NewDates, Prepared, Overridden, ACCOUNT_TABLE, PASSWORD_TABLE, SchemasOf;
  }

  lemma CoveredRows(s: Schemas, first: Shelf, a: set<string>, p: set<string>, shelf: Shelf, b: set<string>)
    requires p <= a <= b && forall k :: k in b ==> k in shelf && shelf[k].accountInfo.Some?
    ensures NewAccounts(s.accounts.columns, first, a) + NewAccounts(s.accounts.columns, shelf, b) ==
      NewAccounts(s.accounts.columns, shelf, b)
    ensures NewDates(s.dates.columns, first, p) + NewDates(s.dates.columns, shelf, b) ==
      NewDates(s.dates.columns, shelf, b)
  {
    hide AccountRow, DateRow;
    Covers(NewAccounts(s.accounts.columns, first, a), NewAccounts(s.accounts.columns, shelf, b));
    Covers(NewDates(s.dates.columns, first, p), NewDates(s.dates.columns, shelf, b));
  }

  lemma Covers(x: map<string, Row>, y: map<string, Row>)
    ensures x.Keys <= y.Keys ==> x + y == y
  {
  }

  // ----- On any tables, whatever their primary key -----

  // Whether a row is stored depends on the demands of its table alone, and storing it keeps them.
  lemma AccountStores(db: Db, shelf: Shelf, k: string)
    requires ACCOUNT_TABLE in db && PASSWORD_TABLE in db
    ensures var step := Step(db, AccountOf(shelf, k));
      (step.Some? <==> AccountTaken(SchemasOf(db), shelf, k)) &&
      (step.Some? ==>
        ACCOUNT_TABLE in step.value && PASSWORD_TABLE in step.value && SchemasOf(step.value) == SchemasOf(db) &&
        step.value == Stored(db, ACCOUNT_TABLE, AccountRow(db[ACCOUNT_TABLE].schema.columns, k, shelf[k])))
  {
    TableNames();
    AccountDescribed();
    ItemsStart();
    SchemasThere(db);
    if k in shelf && shelf[k].accountInfo.Some? {
      RowExecutes(db, ACCOUNT_TABLE, ACCOUNT_INFO, k, shelf[k].accountInfo.value);
      hide ACCOUNT_INFO, ACCOUNT_TABLE, PASSWORD_TABLE, SchemasOf, Step, RowOf, Readable, Placed, RowCommand, Described,
        Stored, Admits;
      if AccountTaken(SchemasOf(db), shelf, k) {
        StoredSchemas(db, ACCOUNT_TABLE, AccountRow(db[ACCOUNT_TABLE].schema.columns, k, shelf[k]));
      }
    } else {
      NoStep(db);
    }
  }

  lemma DateStores(db: Db, shelf: Shelf, k: string)
    requires ACCOUNT_TABLE in db && PASSWORD_TABLE in db && k in shelf
    ensures var step := Step(db, DateOf(shelf, k));
      (step.Some? <==> TakesDate(SchemasOf(db), k, shelf[k])) &&
      (step.Some? ==>
        ACCOUNT_TABLE in step.value && PASSWORD_TABLE in step.value && SchemasOf(step.value) == SchemasOf(db))
  {
    TableNames();
    PasswordDescribed();
    PasswordSufficient(shelf[k]);
    SchemasThere(db);
    RowExecutes(db, PASSWORD_TABLE, PASSWORD_INFO, k, DateInfo(shelf[k]));
    ItemsStart();
    hide PASSWORD_INFO, ACCOUNT_TABLE, PASSWORD_TABLE, SchemasOf, Step, RowOf, Readable, Placed, RowCommand, Described,
      Stored, Admits, DateInfo;
    if TakesDate(SchemasOf(db), k, shelf[k]) {
      StoredSchemas(db, PASSWORD_TABLE, DateRow(db[PASSWORD_TABLE].schema.columns, k, shelf[k]));
    }
  }

  lemma SchemasThere(db: Db)
    requires ACCOUNT_TABLE in db && PASSWORD_TABLE in db
    ensures Prepared(db) == db && SchemasOf(db) == Schemas(db[ACCOUNT_TABLE].schema, db[PASSWORD_TABLE].schema)
  {
    PreparedOnce(db);
    hide Prepared, WithAccounts;
  }

  lemma StoredSchemas(db: Db, table: string, row: Row)
    requires table in db && Admits(db[table].schema, row) && ACCOUNT_TABLE in db && PASSWORD_TABLE in db
    ensures var after := Stored(db, table, row);
      ACCOUNT_TABLE in after && PASSWORD_TABLE in after && SchemasOf(after) == SchemasOf(db)
  {
    hide ACCOUNT_TABLE, PASSWORD_TABLE, Admits, Prepared;
    SchemasThere(db);
    SchemasThere(Stored(db, table, row));
  }
}
