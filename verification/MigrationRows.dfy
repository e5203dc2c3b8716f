/** What one statement of the migration does to its table. */
module MigrationRows {
  import opened Text
  import opened Sql
  import opened Migration

  // ----- The reference: a row made from an entry alone -----

  // An attribute that is absent is NULL, another is the text of its value.
  function CellOf(item: Item, info: map<string, PyValue>): (r: Option<string>)
  {
    if item.name !in info || info[item.name] == PyNone then None else Bound(item, info[item.name])
  }

  function Filled(items: seq<Item>, info: map<string, PyValue>): (row: Row)
  {
    if items == [] then map[]
    else
      var n := |items| - 1;
      Filled(items[..n], info)[items[n].name := CellOf(items[n], info)]
  }

  // All that is known of a key, under the names of the script's own columns.
  function RowOf(items: seq<Item>, key: string, info: map<string, PyValue>): (full: Row)
    requires items != []
  {
    Filled(items[1..], info)[items[0].name := Some(key)]
  }

  // The row as a table with these columns holds it; a column the script does not know is NULL.
  function Placed(columns: seq<Column>, full: Row): (row: Row)
  {
    map n | n in Blank(columns) :: if n in full then full[n] else None
  }

  // ----- When a statement goes through -----

  ghost predicate Distinct(items: seq<Item>)
  {
    forall i, j :: 0 <= i < j < |items| ==> items[i].name != items[j].name
  }

  // A table description: plain names, all different, the first column the primary key.
  ghost predicate Described(items: seq<Item>)
  {
    items != [] && Distinct(items) && Named(Columns(items)) && KeyName(Columns(items)) == Some(items[0].name)
  }

  // The record has the attribute, and its value is none or converts.
  predicate Reads(item: Item, info: map<string, PyValue>)
  {
    item.name in info && (info[item.name] == PyNone || Bound(item, info[item.name]).Some?)
  }

  ghost predicate Readable(items: seq<Item>, info: map<string, PyValue>)
  {
    forall i :: 1 <= i < |items| ==> Reads(items[i], info)
  }

  // Every column that must not be NULL gets a value.
  ghost predicate Sufficient(items: seq<Item>, info: map<string, PyValue>)
  {
    forall i :: 1 <= i < |items| && NotNull(Column(items[i].name, items[i].decl)) ==> CellOf(items[i], info).Some?
  }

  // Every value has a column.
  ghost predicate Fits(s: Schema, full: Row)
  {
    forall n :: HasValue(full, n) ==> n in Blank(s.columns)
  }

  // A table with these demands takes the row.
  ghost predicate Takes(s: Schema, full: Row)
  {
    Fits(s, full) && Admits(s, Placed(s.columns, full))
  }

  // The values of a row.
  function Present(row: Row): (values: Row)
  {
    map n | n in row && row[n].Some? :: row[n]
  }

  // ----- Gathering -----

  lemma {:induction false} GatherReads(items: seq<Item>, info: map<string, PyValue>)
    ensures Gather(items, info).Some? <==> forall i :: 0 <= i < |items| ==> Reads(items[i], info)
    ensures Gather(items, info).Some? ==> forall i :: 0 <= i < |Gather(items, info).value.0| ==>
      exists j :: 0 <= j < |items| && items[j].name == Gather(items, info).value.0[i]
  {
    hide Bound;
    if items == [] {
    } else {
      var n := |items| - 1;
      GatherReads(items[..n], info);
      assert forall i :: 0 <= i < n ==> items[..n][i] == items[i];
    }
  }

  lemma {:induction false} FilledCells(items: seq<Item>, info: map<string, PyValue>)
    requires Distinct(items)
    ensures forall n :: n in Filled(items, info) <==> exists i :: 0 <= i < |items| && items[i].name == n
    ensures forall i :: 0 <= i < |items| ==> Filled(items, info)[items[i].name] == CellOf(items[i], info)
  {
    hide CellOf;
    if items == [] {
    } else {
      var n := |items| - 1;
      FilledCells(items[..n], info);
      assert forall i :: 0 <= i < n ==> items[..n][i] == items[i];
    }
  }

  lemma {:induction false} BlankNames(columns: seq<Column>)
    ensures forall n :: n in Blank(columns) <==> exists i :: 0 <= i < |columns| && columns[i].name == n
  {
    if columns == [] {
    } else {
      BlankNames(columns[1..]);
      assert forall i :: 1 <= i < |columns| ==> columns[i] == columns[1..][i - 1];
    }
  }

  // The parallel lists stay aligned: binding them column by column gives every present attribute
  // its own text and touches nothing else.
  lemma {:induction false} BindGathered(base: Row, names: seq<string>, values: seq<string>, items: seq<Item>,
      info: map<string, PyValue>)
    requires |names| == |values| && Distinct(items) && Gather(items, info).Some?
    ensures var r := Gather(items, info).value;
      Bind(base, names + r.0, values + r.1) == Bind(base, names, values) + Present(Filled(items, info))
  {
    if items == [] {
      assert names + [] == names && values + [] == values;
    } else {
      var n := |items| - 1;
      var front, item := items[..n], items[n];
      WithoutLast(items, info);
      assert forall i :: 0 <= i < n ==> front[i] == items[i];
      hide Bind, Bound, Filled, Distinct, Present;
      BindGathered(base, names, values, front, info);
      FilledStep(items, info);
      PresentStep(Filled(front, info), item.name, CellOf(item, info));
      var r := Gather(front, info).value;
      if info[item.name] != PyNone {
        BindNext(base, names, values, r.0, r.1, Present(Filled(front, info)), item.name,
                 Bound(item, info[item.name]).value);
      }
    }
  }

  lemma PresentStep(f: Row, name: string, cell: Option<string>)
    requires name !in f
    ensures Present(f[name := cell]) == if cell.Some? then Present(f)[name := cell] else Present(f)
  {
  }

  lemma WithoutLast(items: seq<Item>, info: map<string, PyValue>)
    requires Distinct(items) && items != []
    ensures var n := |items| - 1;
      Distinct(items[..n]) && items[n].name !in Filled(items[..n], info)
  {
    var front := items[..|items| - 1];
    assert forall i :: 0 <= i < |front| ==> front[i] == items[i];
    FilledCells(front, info);
  }

  lemma BindNext(base: Row, names: seq<string>, values: seq<string>, ns: seq<string>, vs: seq<string>, f: Row,
      name: string, text: string)
    requires |names| == |values| && |ns| == |vs|
    requires Bind(base, names + ns, values + vs) == Bind(base, names, values) + f
    ensures Bind(base, names + (ns + [name]), values + (vs + [text])) ==
      Bind(base, names, values) + f[name := Some(text)]
  {
    BindOne(base, names + ns, values + vs, name, text);
    hide Bind;
    assert names + (ns + [name]) == names + ns + [name];
    assert values + (vs + [text]) == values + vs + [text];
    var b := Bind(base, names, values);
    assert (b + f)[name := Some(text)] == b + f[name := Some(text)];
  }

  lemma FilledStep(items: seq<Item>, info: map<string, PyValue>)
    requires items != []
    ensures var n := |items| - 1;
      Filled(items, info) == Filled(items[..n], info)[items[n].name := CellOf(items[n], info)]
  {
  }

  lemma BindOne(base: Row, names: seq<string>, values: seq<string>, name: string, value: string)
    requires |names| == |values|
    ensures Bind(base, names + [name], values + [value]) == Bind(base, names, values)[name := Some(value)]
  {
    assert (names + [name])[..|names|] == names && (values + [value])[..|values|] == values;
  }

  // ----- The statement of one row -----

  lemma RestGathered(items: seq<Item>, info: map<string, PyValue>)
    requires items != [] && Distinct(items)
    ensures Distinct(items[1..]) && items[0].name !in Filled(items[1..], info)
    ensures Gather(items[1..], info).Some? <==> Readable(items, info)
  {
    hide Reads;
    var rest := items[1..];
    assert forall i :: 0 <= i < |rest| ==> rest[i] == items[i + 1];
    assert forall i :: 1 <= i < |items| ==> items[i] == rest[i - 1];
    GatherReads(rest, info);
    FilledCells(rest, info);
  }

  // The names gathered are those of the values there are.
  lemma GatheredNames(items: seq<Item>, info: map<string, PyValue>)
    requires Distinct(items) && Gather(items, info).Some?
    ensures forall n :: n in Gather(items, info).value.0 <==> HasValue(Filled(items, info), n)
  {
    var r := Gather(items, info).value;
    BindGathered(map[], [], [], items, info);
    BindNothing();
    hide *;
    assert [] + r.0 == r.0 && [] + r.1 == r.1;
    NamesBound(r.0, r.1, Filled(items, info));
  }

  lemma NamesBound(names: seq<string>, values: seq<string>, f: Row)
    requires |names| == |values| && Bind(map[], names, values) == map[] + Present(f)
    ensures forall n :: n in names <==> HasValue(f, n)
  {
    BindKeys(map[], names, values);
    hide Bind;
  }

  lemma BindNothing()
    ensures Bind(map[], [], []) == map[]
  {
  }

  lemma {:induction false} BindKeys(row: Row, names: seq<string>, values: seq<string>)
    requires |names| == |values|
    ensures forall n :: n in Bind(row, names, values) <==> n in row || n in names
  {
    if names == [] {
    } else {
      var i := |names| - 1;
      BindKeys(row, names[..i], values[..i]);
      assert names == names[..i] + [names[i]];
    }
  }

  // ----- What the statement stores -----

  lemma RowBound(columns: seq<Column>, items: seq<Item>, key: string, info: map<string, PyValue>)
    requires items != [] && Distinct(items) && Readable(items, info)
    ensures Gather(items[1..], info).Some?
    ensures var r := Gather(items[1..], info).value;
      Bind(Blank(columns), [items[0].name] + r.0, [key] + r.1) ==
        Blank(columns) + Present(RowOf(items, key, info)) &&
      forall n :: n in [items[0].name] + r.0 <==> HasValue(RowOf(items, key, info), n)
  {
    var rest, name, blank := items[1..], items[0].name, Blank(columns);
    RestGathered(items, info);
    GatheredNames(rest, info);
    BindOne(blank, [], [], name, key);
    assert [] + [name] == [name] && [] + [key] == [key] && Bind(blank, [], []) == blank;
    BindGathered(blank, [name], [key], rest, info);
    FullRow(items, key, info);
    hide *;
    KeyThenRest(blank, name, key, Filled(rest, info));
  }

  lemma FullRow(items: seq<Item>, key: string, info: map<string, PyValue>)
    requires items != []
    ensures RowOf(items, key, info) == Filled(items[1..], info)[items[0].name := Some(key)]
    ensures HasValue(RowOf(items, key, info), items[0].name)
  {
  }

  lemma KeyThenRest(blank: Row, name: string, key: string, rest: Row)
    requires name !in rest
    ensures blank[name := Some(key)] + Present(rest) == blank + Present(rest[name := Some(key)])
    ensures forall n :: HasValue(rest[name := Some(key)], n) <==> n == name || HasValue(rest, n)
  {
    var full := rest[name := Some(key)];
    forall n ensures HasValue(full, n) <==> n == name || HasValue(rest, n) {
    }
  }

  // Where every value has a column, the values are put over a blank row.
  lemma PlacedOver(s: Schema, full: Row)
    requires Fits(s, full)
    ensures Blank(s.columns) + Present(full) == Placed(s.columns, full)
  {
  }

  lemma ExecutesInsert(db: Db, table: string, names: seq<string>, values: seq<string>)
    requires '(' !in table && |names| == |values| && AllPlain(names) && names != []
    ensures Execute(db, InsertText(table, names, Marks(|names|)), values) ==
      if table in db then Insert(db, table, names, values) else None
  {
    var marks := Marks(|names|);
    assert forall i :: 0 <= i < |marks| ==> Plain(marks[i]);
    InsertReads(table, names, marks);
    hide Parse, InsertText, Insert, AllPlain;
    assert !(exists m :: m in marks && m != "?");
  }

  lemma InsertStores(db: Db, table: string, items: seq<Item>, key: string, info: map<string, PyValue>)
    requires table in db && items != [] && Distinct(items) && Readable(items, info)
    ensures Gather(items[1..], info).Some?
    ensures var r, full, s := Gather(items[1..], info).value, RowOf(items, key, info), db[table].schema;
      Insert(db, table, [items[0].name] + r.0, [key] + r.1) ==
        if Takes(s, full) then Some(Stored(db, table, Placed(s.columns, full))) else None
  {
    var full, s := RowOf(items, key, info), db[table].schema;
    RowBound(s.columns, items, key, info);
    hide Bind, Blank, RowOf, Gather, Readable, Distinct, Placed, Present, Admits, Stored, HasValue;
    if Fits(s, full) {
      PlacedOver(s, full);
    }
  }

  // Executed on any database, the statement stores the row made from the entry alone, or fails,
  // exactly when the record does not read or the table does not take the row.
  lemma RowExecutes(db: Db, table: string, items: seq<Item>, key: string, info: map<string, PyValue>)
    requires '(' !in table && Described(items)
    ensures Step(db, RowCommand(table, items, key, info)) ==
      if Readable(items, info) && table in db && Takes(db[table].schema, RowOf(items, key, info)) then
        Some(Stored(db, table, Placed(db[table].schema.columns, RowOf(items, key, info))))
      else None
  {
    RestGathered(items, info);
    RowStep(db, table, items, key, info);
    if Readable(items, info) {
      GatheredPlain(items, info);
      if table in db {
        InsertStores(db, table, items, key, info);
      }
      var r := Gather(items[1..], info).value;
      hide *;
      assert |[items[0].name] + r.0| == |r.0| + 1;
      ExecutesInsert(db, table, [items[0].name] + r.0, [key] + r.1);
    }
  }

  lemma RowStep(db: Db, table: string, items: seq<Item>, key: string, info: map<string, PyValue>)
    requires items != []
    ensures Step(db, RowCommand(table, items, key, info)) ==
      match Gather(items[1..], info)
      case None => None
      case Some(r) => Execute(db, InsertText(table, [items[0].name] + r.0, Marks(|r.0| + 1)), [key] + r.1)
  {
    hide Gather, Execute, InsertText, Marks;
  }

  lemma GatheredPlain(items: seq<Item>, info: map<string, PyValue>)
    requires Described(items) && Gather(items[1..], info).Some?
    ensures AllPlain([items[0].name] + Gather(items[1..], info).value.0)
    ensures AllPlain(Marks(|Gather(items[1..], info).value.0| + 1))
  {
    var names := Gather(items[1..], info).value.0;
    GatherReads(items[1..], info);
    forall i | 0 <= i < |items| ensures Plain(items[i].name) {
      assert Columns(items)[i].name == items[i].name;
    }
    forall i | 0 <= i < |names| ensures Plain(names[i]) {
      var j :| 0 <= j < |items[1..]| && items[1..][j].name == names[i];
      assert items[j + 1].name == names[i];
    }
  }

  // ----- A table the script creates takes exactly the sufficient records -----

  lemma BlankHas(items: seq<Item>)
    ensures forall i :: 0 <= i < |items| ==> items[i].name in Blank(Columns(items))
    ensures forall n :: n in Blank(Columns(items)) ==> exists i :: 0 <= i < |items| && items[i].name == n
  {
    var columns := Columns(items);
    BlankNames(columns);
    forall i | 0 <= i < |items| ensures items[i].name in Blank(columns) {
      assert columns[i].name == items[i].name;
    }
    forall n | n in Blank(columns) ensures exists i :: 0 <= i < |items| && items[i].name == n {
      var i :| 0 <= i < |columns| && columns[i].name == n;
      assert items[i].name == n;
    }
  }

  lemma SameNames(items: seq<Item>, info: map<string, PyValue>)
    requires items != [] && Distinct(items)
    ensures Blank(Columns(items)).Keys == Filled(items[1..], info).Keys + {items[0].name}
  {
    var blank, filled := Blank(Columns(items)), Filled(items[1..], info);
    RestNames(items, info, blank);
    NamesOfRest(items, info, blank);
    hide *;
  }

  lemma RestNames(items: seq<Item>, info: map<string, PyValue>, blank: Row)
    requires items != [] && Distinct(items) && blank == Blank(Columns(items))
    ensures forall n :: n in Filled(items[1..], info) ==> n in blank
    ensures items[0].name in blank
  {
    BlankHas(items);
    RestGathered(items, info);
    FilledCells(items[1..], info);
    hide *;
    forall n | n in Filled(items[1..], info) ensures n in blank {
      var i :| 0 <= i < |items[1..]| && items[1..][i].name == n;
      assert items[i + 1].name == n;
    }
  }

  lemma NamesOfRest(items: seq<Item>, info: map<string, PyValue>, blank: Row)
    requires items != [] && Distinct(items) && blank == Blank(Columns(items))
    ensures forall n :: n in blank ==> n == items[0].name || n in Filled(items[1..], info)
  {
    BlankHas(items);
    RestGathered(items, info);
    FilledCells(items[1..], info);
    hide *;
    forall n | n in blank ensures n == items[0].name || n in Filled(items[1..], info) {
      var i :| 0 <= i < |items| && items[i].name == n;
      if i > 0 {
        assert items[1..][i - 1].name == n;
      }
    }
  }

  lemma RowCells(items: seq<Item>, key: string, info: map<string, PyValue>)
    requires items != [] && Distinct(items)
    ensures RowOf(items, key, info)[items[0].name] == Some(key)
    ensures forall i :: 1 <= i < |items| ==>
      items[i].name in RowOf(items, key, info) && RowOf(items, key, info)[items[i].name] == CellOf(items[i], info)
  {
    FilledCells(items[1..], info);
    forall i | 1 <= i < |items|
      ensures items[i].name in RowOf(items, key, info) &&
        RowOf(items, key, info)[items[i].name] == CellOf(items[i], info)
    {
      assert items[1..][i - 1] == items[i] && items[i].name != items[0].name;
    }
  }

  lemma RowNames(items: seq<Item>, key: string, info: map<string, PyValue>)
    requires items != [] && Distinct(items)
    ensures forall n :: n in RowOf(items, key, info) ==> exists i :: 0 <= i < |items| && items[i].name == n
  {
    FilledCells(items[1..], info);
    hide Filled, Distinct;
    forall n | n in RowOf(items, key, info) ensures exists i :: 0 <= i < |items| && items[i].name == n {
      if n == items[0].name {
      } else {
        var i :| 0 <= i < |items[1..]| && items[1..][i].name == n;
        assert items[i + 1].name == n;
      }
    }
  }

  lemma NoNullIsSufficient(items: seq<Item>, key: string, info: map<string, PyValue>)
    requires items != [] && Distinct(items)
    ensures var row := RowOf(items, key, info);
      Complete(Columns(items), row) <==> Sufficient(items, info)
  {
    hide NotNull, CellOf, RowOf;
    var row, columns := RowOf(items, key, info), Columns(items);
    RowCells(items, key, info);
    if c :| c in columns && NotNull(c) && !HasValue(row, c.name) {
      var i :| 0 <= i < |columns| && columns[i] == c;
      assert c == Column(items[i].name, items[i].decl);
      RowHasKey(items, key, info);
      assert i > 0;
    }
    if !Sufficient(items, info) {
      var i :| 1 <= i < |items| && NotNull(Column(items[i].name, items[i].decl)) && CellOf(items[i], info).None?;
      assert columns[i] in columns;
    }
  }

  lemma RowHasKey(items: seq<Item>, key: string, info: map<string, PyValue>)
    requires items != []
    ensures items[0].name in RowOf(items, key, info)
  {
  }

  lemma OwnTakes(items: seq<Item>, key: string, info: map<string, PyValue>)
    requires Described(items)
    ensures Takes(SchemaOf(Columns(items)), RowOf(items, key, info)) <==> Sufficient(items, info)
    ensures Placed(Columns(items), RowOf(items, key, info)) == RowOf(items, key, info)
  {
    DescribedKey(items);
    OwnPlaced(items, key, info);
    NoNullIsSufficient(items, key, info);
    FullRow(items, key, info);
    hide *;
    var columns, full := Columns(items), RowOf(items, key, info);
    OwnAdmits(columns, items[0].name, full);
    TakesIs(SchemaOf(columns), full);
    OwnColumns(columns);
  }

  lemma OwnPlaced(items: seq<Item>, key: string, info: map<string, PyValue>)
    requires items != [] && Distinct(items)
    ensures Placed(Columns(items), RowOf(items, key, info)) == RowOf(items, key, info)
    ensures Fits(SchemaOf(Columns(items)), RowOf(items, key, info))
  {
    SameNames(items, info);
    FullRow(items, key, info);
    hide *;
    assert RowOf(items, key, info).Keys == Filled(items[1..], info).Keys + {items[0].name};
    PlacedSame(Columns(items), RowOf(items, key, info));
  }

  lemma DescribedKey(items: seq<Item>)
    requires Described(items)
    ensures items != [] && Distinct(items) && KeyName(Columns(items)) == Some(items[0].name)
  {
  }

  lemma OwnColumns(columns: seq<Column>)
    ensures SchemaOf(columns).columns == columns
  {
  }

  lemma TakesIs(s: Schema, full: Row)
    ensures Takes(s, full) <==> Fits(s, full) && Admits(s, Placed(s.columns, full))
  {
  }

  // Without checks, and with a value for the key, a row is admitted when it is complete.
  lemma OwnAdmits(columns: seq<Column>, key: string, row: Row)
    requires KeyName(columns) == Some(key) && HasValue(row, key)
    ensures Admits(SchemaOf(columns), row) <==> Complete(columns, row)
  {
    hide KeyName, Complete, HasValue;
  }

  lemma PlacedSame(columns: seq<Column>, full: Row)
    requires full.Keys == Blank(columns).Keys
    ensures Placed(columns, full) == full && Fits(SchemaOf(columns), full)
  {
  }
}
