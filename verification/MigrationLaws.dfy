/** Whole runs of the migration: what they leave, where they stop, and what a crash costs. */
module MigrationLaws {
  import opened Text
  import opened Sql
  import opened Migration
  import opened MigrationRows
  import opened MigrationTables
  import opened MigrationSteps

  // ----- Runs -----

  function KeySet(keys: seq<string>): (ks: set<string>) { set k | k in keys }

  lemma KeySetSnoc(keys: seq<string>, i: nat)
    requires i < |keys|
    ensures KeySet(keys[..i + 1]) == KeySet(keys[..i]) + {keys[i]}
  {
    assert keys[..i + 1] == keys[..i] + [keys[i]];
  }

  lemma CreatesBoth(db: Db, shelf: Shelf, keys: seq<string>)
    ensures Trace(db, Commands(shelf, keys[..0])) == [WithAccounts(db), Prepared(db)]
  {
    var first, second := CreateCommand(ACCOUNT_TABLE, ACCOUNT_INFO), CreateCommand(PASSWORD_TABLE, PASSWORD_INFO);
    TableNames();
    AccountDescribed();
    PasswordDescribed();
    CreateStep(db, ACCOUNT_TABLE, ACCOUNT_INFO);
    CreateStep(WithAccounts(db), PASSWORD_TABLE, PASSWORD_INFO);
    CommandsStart(shelf, keys);
    hide *;
    RunsTwo(db, first, second, WithAccounts(db), Prepared(db));
  }

  lemma RunsTwo(db: Db, first: Option<Command>, second: Option<Command>, one: Db, two: Db)
    ensures Step(db, first) == Some(one) && Step(one, second) == Some(two) ==>
      Trace(db, [first, second]) == [one, two]
  {
    RunsNone(db);
    hide *;
    assert [] + [first] == [first] && [first] + [second] == [first, second];
    RanOne(db, [], first);
    if Step(db, first) == Some(one) {
      RanOne(db, [first], second);
    }
  }

  lemma RunsNone(db: Db)
    ensures Completes(db, []) && Trace(db, []) == [] && Final(db, []) == db
  {
  }

  // The tables take both rows of each of the first i keys.
  ghost predicate Ready(s: Schemas, shelf: Shelf, keys: seq<string>, i: nat)
    requires i <= |keys|
  {
    forall j :: 0 <= j < i ==> Taken(s, shelf, keys[j])
  }

  // The states committed by a run over the first i keys: one table, both tables, and then for each
  // key one state with its account and one with its date.
  function States(db: Db, shelf: Shelf, keys: seq<string>, i: nat): (states: seq<Db>)
    requires i <= |keys|
    ensures |states| == 2 + 2 * i
  {
    if i == 0 then [WithAccounts(db), Prepared(db)]
    else
      States(db, shelf, keys, i - 1) +
      [Done(db, shelf, KeySet(keys[..i]), KeySet(keys[..i - 1]))] +
      [Done(db, shelf, KeySet(keys[..i]), KeySet(keys[..i]))]
  }

  lemma StatesStep(db: Db, shelf: Shelf, keys: seq<string>, i: nat)
    requires 0 < i <= |keys|
    ensures States(db, shelf, keys, i) ==
      States(db, shelf, keys, i - 1) +
      [Done(db, shelf, KeySet(keys[..i]), KeySet(keys[..i - 1]))] +
      [Done(db, shelf, KeySet(keys[..i]), KeySet(keys[..i]))]
  {
    hide Done, KeySet;
  }

  lemma {:induction false} RunReaches(db: Db, shelf: Shelf, keys: seq<string>, i: nat)
    requires Keyed(db) && i <= |keys| && Ready(SchemasOf(db), shelf, keys, i)
    ensures Trace(db, Commands(shelf, keys[..i])) == States(db, shelf, keys, i)
    ensures Completes(db, Commands(shelf, keys[..i]))
    ensures Final(db, Commands(shelf, keys[..i])) == Done(db, shelf, KeySet(keys[..i]), KeySet(keys[..i]))
  {
    if i == 0 {
      CreatesBoth(db, shelf, keys);
      NothingDone(db, shelf);
      NoKeys(keys);
      hide Done, Trace, Commands, KeySet, Prepared, WithAccounts;
    } else {
      RunReaches(db, shelf, keys, i - 1);
      KeySetSnoc(keys, i - 1);
      CommandsAt(shelf, keys, i - 1);
      KeyRuns(db, shelf, KeySet(keys[..i - 1]), Commands(shelf, keys[..i - 1]), keys[i - 1]);
      assert Taken(SchemasOf(db), shelf, keys[i - 1]);
      StatesStep(db, shelf, keys, i);
      hide *;
    }
  }

  // The two commands of a key whose rows are taken.
  lemma KeyRuns(db: Db, shelf: Shelf, before: set<string>, commands: seq<Option<Command>>, k: string)
    requires Keyed(db) && Completes(db, commands)
    ensures Final(db, commands) == Done(db, shelf, before, before) && Taken(SchemasOf(db), shelf, k) ==>
      var after, a, b := before + {k}, AccountOf(shelf, k), DateOf(shelf, k);
      Trace(db, commands + [a] + [b]) ==
        Trace(db, commands) + [Done(db, shelf, after, before)] + [Done(db, shelf, after, after)] &&
      Completes(db, commands + [a] + [b]) && Final(db, commands + [a] + [b]) == Done(db, shelf, after, after)
  {
    hide Done, Step, AccountOf, DateOf, Trace, Keyed, TakesAccount, TakesDate, SchemasOf, Completes, Final;
    if Taken(SchemasOf(db), shelf, k) {
      AccountStep(db, shelf, before, before, k);
      DateStep(db, shelf, before + {k}, before, k);
      RanTwo(db, commands, AccountOf(shelf, k), DateOf(shelf, k));
    }
  }

  lemma RanTwo(db: Db, commands: seq<Option<Command>>, a: Option<Command>, b: Option<Command>)
    requires Completes(db, commands)
    ensures var x := Step(Final(db, commands), a);
      x.Some? ==> var y := Step(x.value, b);
        y.Some? ==>
          Completes(db, commands + [a] + [b]) && Final(db, commands + [a] + [b]) == y.value &&
          Trace(db, commands + [a] + [b]) == Trace(db, commands) + [x.value] + [y.value]
  {
    RanOne(db, commands, a);
    if Step(Final(db, commands), a).Some? {
      RanOne(db, commands + [a], b);
    }
    hide *;
  }

  lemma NoKeys(keys: seq<string>)
    ensures KeySet(keys[..0]) == {}
  {
  }

  // The run stops at the first key with a row that is not taken. Everything before it is in, and
  // its account is if only its date is not taken.
  lemma StopsAtFirst(db: Db, shelf: Shelf, keys: seq<string>, i: nat)
    requires Keyed(db) && i < |keys| && Ready(SchemasOf(db), shelf, keys, i) && !Taken(SchemasOf(db), shelf, keys[i])
    ensures !Completes(db, Commands(shelf, keys))
    ensures Trace(db, Commands(shelf, keys)) == States(db, shelf, keys, i) +
      (if AccountTaken(SchemasOf(db), shelf, keys[i]) then
         [Done(db, shelf, KeySet(keys[..i + 1]), KeySet(keys[..i]))]
       else [])
  {
    hide Done, Step, AccountOf, DateOf, Commands, Trace, Keyed, TakesAccount, TakesDate, SchemasOf, Final, States;
    var before, k, commands := KeySet(keys[..i]), keys[i], Commands(shelf, keys[..i]);
    var a, b := AccountOf(shelf, k), DateOf(shelf, k);
    var rest := Commands(shelf, keys)[|Commands(shelf, keys[..i + 1])|..];
    RunReaches(db, shelf, keys, i);
    KeySetSnoc(keys, i);
    AccountStep(db, shelf, before, before, k);
    CommandsAt(shelf, keys, i);
    RanOne(db, commands, a);
    if AccountTaken(SchemasOf(db), shelf, k) {
      DateStep(db, shelf, before + {k}, before, k);
      RanOne(db, commands + [a], b);
      NoMore(db, commands + [a] + [b], rest);
    } else {
      NoMore(db, commands + [a], [b] + rest);
      assert commands + [a] + ([b] + rest) == commands + [a] + [b] + rest;
      assert States(db, shelf, keys, i) + [] == States(db, shelf, keys, i);
    }
  }

  // The number of keys before the first with a row that is not taken.
  ghost function Good(s: Schemas, shelf: Shelf, keys: seq<string>): (g: nat)
    ensures g <= |keys|
  {
    if keys == [] || !Taken(s, shelf, keys[0]) then 0 else 1 + Good(s, shelf, keys[1..])
  }

  lemma {:induction false} GoodIs(s: Schemas, shelf: Shelf, keys: seq<string>)
    ensures var g := Good(s, shelf, keys);
      Ready(s, shelf, keys, g) && (g < |keys| ==> !Taken(s, shelf, keys[g]))
  {
    hide Taken;
    if keys == [] || !Taken(s, shelf, keys[0]) {
    } else {
      GoodIs(s, shelf, keys[1..]);
    }
  }

  // The other way round: there is only one such number.
  lemma {:induction false} GoodOnly(s: Schemas, shelf: Shelf, keys: seq<string>, i: nat)
    requires i <= |keys| && Ready(s, shelf, keys, i)
    ensures i <= Good(s, shelf, keys)
  {
    hide Taken;
    if i == 0 {
    } else {
      assert Taken(s, shelf, keys[0]);
      assert forall j :: 0 <= j < i - 1 ==> keys[1..][j] == keys[j + 1];
      GoodOnly(s, shelf, keys[1..], i - 1);
    }
  }

  // The number of keys a run writes the account of: the next one, too, if only its date is not taken.
  ghost function Reached(s: Schemas, shelf: Shelf, keys: seq<string>): (h: nat)
    ensures Good(s, shelf, keys) <= h <= |keys| && h <= Good(s, shelf, keys) + 1
  {
    var g := Good(s, shelf, keys);
    if g < |keys| && AccountTaken(s, shelf, keys[g]) then g + 1 else g
  }

  // The number of commits of a run that is not cut off.
  ghost function Total(s: Schemas, shelf: Shelf, keys: seq<string>): (n: nat)
    ensures n <= 2 + 2 * |keys|
  {
    2 + Good(s, shelf, keys) + Reached(s, shelf, keys)
  }

  // ----- Crashes -----

  // What is left of the commits when only the first `n` are made, or all if there are fewer.
  function Cut(db: Db, trace: seq<Db>, n: nat): (left: Db)
  {
    var m := if n < |trace| then n else |trace|;
    if m == 0 then db else trace[m - 1]
  }

  // What a run leaves behind that is cut off after `n` commits, or ends by itself before that many.
  function After(db: Db, commands: seq<Option<Command>>, n: nat): (left: Db)
  {
    Cut(db, Trace(db, commands), n)
  }

  // The state after `n` commits: nothing yet, one table, or both tables with the rows of a prefix
  // of the keys - where after an odd number of commits one key has its account but not its date.
  function Standing(db: Db, shelf: Shelf, keys: seq<string>, n: nat): (state: Db)
    requires n <= 2 + 2 * |keys|
  {
    if n == 0 then db
    else if n == 1 then WithAccounts(db)
    else Done(db, shelf, KeySet(keys[..(n - 1) / 2]), KeySet(keys[..(n - 2) / 2]))
  }

  lemma {:induction false} StatesStand(db: Db, shelf: Shelf, keys: seq<string>, i: nat, n: nat)
    requires i <= |keys| && 1 <= n <= 2 + 2 * i
    ensures States(db, shelf, keys, i)[n - 1] == Standing(db, shelf, keys, n)
  {
    if i == 0 {
      NothingDone(db, shelf);
      NoKeys(keys);
      hide Done, WithAccounts, Prepared, KeySet;
      assert States(db, shelf, keys, 0) == [WithAccounts(db), Prepared(db)];
    } else {
      hide Done, KeySet, WithAccounts;
      if n <= 2 * i {
        StatesStand(db, shelf, keys, i - 1, n);
      } else {
        Halves(n, i);
      }
    }
  }

  lemma Halves(n: nat, i: nat)
    requires i > 0
    ensures n == 1 + 2 * i ==> (n - 1) / 2 == i && (n - 2) / 2 == i - 1
    ensures n == 2 + 2 * i ==> (n - 1) / 2 == i && (n - 2) / 2 == i
  {
  }

  // How often a run commits when it is cut off after `n` commits at the latest.
  ghost function Commits(s: Schemas, shelf: Shelf, keys: seq<string>, n: nat): (m: nat)
    ensures m <= Total(s, shelf, keys)
  {
    if n < Total(s, shelf, keys) then n else Total(s, shelf, keys)
  }

  // A run over any keys of any shelf commits twice, then twice for every good key, and once more if
  // the next key has an account that is taken; each state it commits stands for a prefix of the keys.
  lemma StateAfter(db: Db, shelf: Shelf, keys: seq<string>, n: nat)
    requires Keyed(db)
    ensures |Trace(db, Commands(shelf, keys))| == Total(SchemasOf(db), shelf, keys)
    ensures After(db, Commands(shelf, keys), n) ==
      Standing(db, shelf, keys, Commits(SchemasOf(db), shelf, keys, n))
  {
    var s := SchemasOf(db);
    var g, m := Good(s, shelf, keys), Commits(s, shelf, keys, n);
    hide Trace, Commands, Keyed, Taken, AccountTaken, SchemasOf, Standing, States, Good;
    RunTrace(db, shelf, keys);
    StandingEarly(db, shelf, keys);
    if 1 <= m <= 2 + 2 * g {
      StatesStand(db, shelf, keys, g, m);
    } else if m == 3 + 2 * g {
      StandingNext(db, shelf, keys, g);
    }
  }

  lemma StandingNext(db: Db, shelf: Shelf, keys: seq<string>, g: nat)
    requires g < |keys|
    ensures Standing(db, shelf, keys, 3 + 2 * g) == Done(db, shelf, KeySet(keys[..g + 1]), KeySet(keys[..g]))
  {
    Halves(3 + 2 * g, g + 1);
    hide Done, KeySet;
  }

  lemma StandingKeys(db: Db, shelf: Shelf, keys: seq<string>, g: nat)
    requires g <= |keys|
    ensures Standing(db, shelf, keys, 2 + 2 * g) == Done(db, shelf, KeySet(keys[..g]), KeySet(keys[..g]))
  {
    hide Done, KeySet, WithAccounts;
    assert (2 + 2 * g - 1) / 2 == g && (2 + 2 * g - 2) / 2 == g;
  }

  lemma RunTrace(db: Db, shelf: Shelf, keys: seq<string>)
    requires Keyed(db)
    ensures var g := Good(SchemasOf(db), shelf, keys);
      Trace(db, Commands(shelf, keys)) == States(db, shelf, keys, g) +
        (if g < |keys| && AccountTaken(SchemasOf(db), shelf, keys[g]) then
           [Done(db, shelf, KeySet(keys[..g + 1]), KeySet(keys[..g]))]
         else [])
  {
    var g := Good(SchemasOf(db), shelf, keys);
    GoodIs(SchemasOf(db), shelf, keys);
    hide Trace, Commands, Keyed, Taken, AccountTaken, SchemasOf, States, Good, Done, KeySet;
    if g == |keys| {
      assert keys[..g] == keys;
      RunReaches(db, shelf, keys, g);
      assert States(db, shelf, keys, g) + [] == States(db, shelf, keys, g);
    } else {
      StopsAtFirst(db, shelf, keys, g);
    }
  }

  lemma StandingEarly(db: Db, shelf: Shelf, keys: seq<string>)
    ensures Standing(db, shelf, keys, 0) == db && Standing(db, shelf, keys, 1) == WithAccounts(db)
  {
  }

  // What stands after some commits, once the tables are there.
  lemma StandingDone(db: Db, s: Schemas, shelf: Shelf, keys: seq<string>, n: nat)
    returns (b: set<string>, q: set<string>)
    requires 2 <= n <= Total(s, shelf, keys)
    ensures q <= b <= AccountKeys(s, shelf) && q <= BothKeys(s, shelf)
    ensures Standing(db, shelf, keys, n) == Done(db, shelf, b, q)
  {
    b, q := KeySet(keys[..(n - 1) / 2]), KeySet(keys[..(n - 2) / 2]);
    GoodTaken(s, shelf, keys, (n - 2) / 2, (n - 1) / 2);
    hide KeySet, Done, AccountKeys, BothKeys, Good;
  }

  lemma GoodTaken(s: Schemas, shelf: Shelf, keys: seq<string>, i: nat, j: nat)
    requires i <= j <= |keys| && i <= Good(s, shelf, keys)
    requires j <= Reached(s, shelf, keys)
    ensures KeySet(keys[..i]) <= BothKeys(s, shelf) && KeySet(keys[..i]) <= KeySet(keys[..j]) <= AccountKeys(s, shelf)
  {
    GoodIs(s, shelf, keys);
    hide TakesAccount, TakesDate;
    assert forall x :: 0 <= x < i ==> Taken(s, shelf, keys[x]);
    assert forall x :: 0 <= x < j ==> AccountTaken(s, shelf, keys[x]);
    forall k | k in KeySet(keys[..i]) ensures k in BothKeys(s, shelf) && k in KeySet(keys[..j]) {
      var x :| 0 <= x < i && keys[..i][x] == k;
      assert keys[..j][x] == k && keys[x] == k;
    }
    forall k | k in KeySet(keys[..j]) ensures k in AccountKeys(s, shelf) {
      var x :| 0 <= x < j && keys[..j][x] == k;
      assert keys[x] == k;
    }
  }

  // The keys with an account that is taken, and those with a date that is taken, too.
  ghost function AccountKeys(s: Schemas, shelf: Shelf): (ks: set<string>)
    ensures ks <= shelf.Keys
  {
    set k | k in shelf && AccountTaken(s, shelf, k)
  }

  ghost function BothKeys(s: Schemas, shelf: Shelf): (ks: set<string>)
    ensures ks <= AccountKeys(s, shelf)
  {
    set k | k in shelf && Taken(s, shelf, k)
  }

  // A run, over some keys of the shelf as it then was, that was cut off after a number of commits
  // or ended by itself before that, by an exception or because it was done.
  datatype Crash = Crash(shelf: Shelf, keys: seq<string>, commits: nat)

  ghost predicate Enumerates(keys: seq<string>, shelf: Shelf) { KeySet(keys) == shelf.Keys }

  ghost predicate AllTaken(s: Schemas, shelf: Shelf)
  {
    forall k :: k in shelf ==> Taken(s, shelf, k)
  }

  // What is committed once all the runs are over, one after the other.
  function Interrupted(db: Db, crashes: seq<Crash>): (state: Db)
  {
    if crashes == [] then db
    else
      var n := |crashes| - 1;
      var c := crashes[n];
      After(Interrupted(db, crashes[..n]), Commands(c.shelf, c.keys), c.commits)
  }

  // How far a state is: the account table perhaps there, or both tables there with the accounts of
  // `a` and the dates of `p` in - never a date without its account.
  ghost predicate PartWay(db: Db, shelf: Shelf, s: Db)
  {
    s == db || s == WithAccounts(db) || exists a, p :: Proper(db, shelf, a, p) && s == Done(db, shelf, a, p)
  }

  ghost predicate Proper(db: Db, shelf: Shelf, a: set<string>, p: set<string>)
  {
    p <= a <= AccountKeys(SchemasOf(db), shelf) && p <= BothKeys(SchemasOf(db), shelf)
  }

  // A state part of the way asks for the same, and doing more from there is doing more from the
  // start, with what was there already.
  lemma PartWayOn(db: Db, shelf: Shelf, s: Db, b: set<string>, q: set<string>) returns (a: set<string>, p: set<string>)
    requires Keyed(db) && PartWay(db, shelf, s)
    ensures Keyed(s) && SchemasOf(s) == SchemasOf(db)
    ensures Proper(db, shelf, a, p) && Done(s, shelf, b, q) == Done(db, shelf, a + b, p + q)
  {
    DoneCreated(db, shelf, b, q);
    KeyedStays(db, shelf, {}, {});
    SchemasStay(db, shelf, {}, {});
    assert {} + b == b && {} + q == q;
    hide Done, SchemasOf, Keyed, WithAccounts;
    if s == db || s == WithAccounts(db) {
      a, p := {}, {};
    } else {
      a, p :| Proper(db, shelf, a, p) && s == Done(db, shelf, a, p);
      KeyedStays(db, shelf, a, p);
      SchemasStay(db, shelf, a, p);
      DoneAgain(db, shelf, a, p, b, q);
    }
  }

  // From a state part of the way, one more run - over any keys, cut off anywhere or stopped by an
  // exception - leaves a state part of the way.
  lemma OneCrash(db: Db, shelf: Shelf, s: Db, keys: seq<string>, n: nat)
    requires Keyed(db) && PartWay(db, shelf, s)
    ensures PartWay(db, shelf, After(s, Commands(shelf, keys), n))
  {
    hide *;
    var a, p := PartWayOn(db, shelf, s, {}, {});
    var m := Commits(SchemasOf(db), shelf, keys, n);
    StateAfter(s, shelf, keys, n);
    StandingEarly(s, shelf, keys);
    if m == 0 {
    } else if m == 1 {
      StartedAgain(db, shelf, s);
    } else {
      var b, q := StandingDone(s, SchemasOf(db), shelf, keys, m);
      a, p := PartWayOn(db, shelf, s, b, q);
      ProperUnion(db, shelf, a, p, b, q);
      IsPartWay(db, shelf, a + b, p + q);
    }
  }

  lemma ProperUnion(db: Db, shelf: Shelf, a: set<string>, p: set<string>, b: set<string>, q: set<string>)
    requires Proper(db, shelf, a, p)
    requires q <= b <= AccountKeys(SchemasOf(db), shelf) && q <= BothKeys(SchemasOf(db), shelf)
    ensures Proper(db, shelf, a + b, p + q)
  {
    hide AccountKeys, BothKeys, SchemasOf;
  }

  lemma IsPartWay(db: Db, shelf: Shelf, a: set<string>, p: set<string>)
    requires Proper(db, shelf, a, p)
    ensures PartWay(db, shelf, Done(db, shelf, a, p))
  {
    hide Done, Proper;
  }

  lemma StartedAgain(db: Db, shelf: Shelf, s: Db)
    requires PartWay(db, shelf, s)
    ensures PartWay(db, shelf, WithAccounts(s))
  {
    if a, p :| Proper(db, shelf, a, p) && s == Done(db, shelf, a, p) {
      SchemasStay(db, shelf, a, p);
    }
    hide Done, Proper;
  }

  // However often and wherever the runs over a shelf are cut off, whether by a crash or by an entry
  // that is not taken, no committed state is anything but part of the way.
  lemma {:induction false} CrashSafety(db: Db, shelf: Shelf, crashes: seq<Crash>)
    requires Keyed(db) && forall i :: 0 <= i < |crashes| ==> crashes[i].shelf == shelf
    ensures PartWay(db, shelf, Interrupted(db, crashes))
  {
    hide Keyed, PartWay, After, Commands;
    if crashes == [] {
      StartIsPartWay(db, shelf);
    } else {
      var n := |crashes| - 1;
      CrashSafety(db, shelf, crashes[..n]);
      OneCrash(db, shelf, Interrupted(db, crashes[..n]), crashes[n].keys, crashes[n].commits);
    }
  }

  lemma StartIsPartWay(db: Db, shelf: Shelf)
    ensures PartWay(db, shelf, db)
  {
  }

  // Whatever an earlier run did is lost once every key of a shelf is written again, if the shelf
  // still has the keys of which the earlier run could write something.
  lemma OneOverwritten(s: Db, crash: Crash, shelf: Shelf)
    requires Keyed(s) && AllTaken(SchemasOf(s), shelf)
    requires AccountKeys(SchemasOf(s), crash.shelf) <= shelf.Keys
    ensures var next := After(s, Commands(crash.shelf, crash.keys), crash.commits);
      Keyed(next) && SchemasOf(next) == SchemasOf(s) &&
      Done(next, shelf, shelf.Keys, shelf.Keys) == Done(s, shelf, shelf.Keys, shelf.Keys)
  {
    AllHaveAccounts(SchemasOf(s), shelf);
    hide *;
    var ks, m := shelf.Keys, Commits(SchemasOf(s), crash.shelf, crash.keys, crash.commits);
    StateAfter(s, crash.shelf, crash.keys, crash.commits);
    StandingEarly(s, crash.shelf, crash.keys);
    if m == 0 {
    } else if m == 1 {
      KeyedStays(s, shelf, {}, {});
      SchemasStay(s, shelf, {}, {});
      DoneCreated(s, shelf, ks, ks);
    } else {
      var b, q := StandingDone(s, SchemasOf(s), crash.shelf, crash.keys, m);
      KeyedStays(s, crash.shelf, b, q);
      SchemasStay(s, crash.shelf, b, q);
      DoneCovers(s, crash.shelf, b, q, shelf, ks);
    }
  }

  lemma AllHaveAccounts(s: Schemas, shelf: Shelf)
    requires AllTaken(s, shelf)
    ensures forall k :: k in shelf.Keys ==> k in shelf && shelf[k].accountInfo.Some?
  {
  }

  lemma {:induction false} Overwritten(db: Db, crashes: seq<Crash>, shelf: Shelf)
    requires Keyed(db) && AllTaken(SchemasOf(db), shelf)
    requires forall i :: 0 <= i < |crashes| ==> AccountKeys(SchemasOf(db), crashes[i].shelf) <= shelf.Keys
    ensures var s := Interrupted(db, crashes);
      Keyed(s) && SchemasOf(s) == SchemasOf(db) &&
      Done(s, shelf, shelf.Keys, shelf.Keys) == Done(db, shelf, shelf.Keys, shelf.Keys)
  {
    hide Keyed, After, Commands, Done, AccountKeys, SchemasOf, AllTaken;
    if crashes == [] {
    } else {
      var n := |crashes| - 1;
      Overwritten(db, crashes[..n], shelf);
      OneOverwritten(Interrupted(db, crashes[..n]), crashes[n], shelf);
    }
  }

  // A complete run after any crashes succeeds and leaves exactly the old tables overridden with the
  // row of every key: what a run with no crash before it leaves, in whatever order of the keys. The
  // earlier runs may have seen other entries, and stopped at some that have been repaired since.
  lemma CrashConvergence(db: Db, crashes: seq<Crash>, shelf: Shelf, keys: seq<string>)
    requires Keyed(db) && AllTaken(SchemasOf(db), shelf) && Enumerates(keys, shelf)
    requires forall i :: 0 <= i < |crashes| ==> AccountKeys(SchemasOf(db), crashes[i].shelf) <= shelf.Keys
    ensures Completes(Interrupted(db, crashes), Commands(shelf, keys)) && Completes(db, Commands(shelf, keys))
    ensures Final(Interrupted(db, crashes), Commands(shelf, keys)) == Final(db, Commands(shelf, keys))
    ensures Final(db, Commands(shelf, keys)) == Done(db, shelf, shelf.Keys, shelf.Keys)
  {
    ReadyIsAll(SchemasOf(db), shelf, keys);
    Overwritten(db, crashes, shelf);
    assert keys[..|keys|] == keys;
    hide Final, Completes, Interrupted, Commands, Keyed, Done, AccountKeys, Ready, SchemasOf;
    RunReaches(db, shelf, keys, |keys|);
    RunReaches(Interrupted(db, crashes), shelf, keys, |keys|);
  }

  lemma ReadyIsAll(s: Schemas, shelf: Shelf, keys: seq<string>)
    requires Enumerates(keys, shelf)
    ensures Ready(s, shelf, keys, |keys|) <==> AllTaken(s, shelf)
  {
    hide Taken;
    forall k | k in shelf ensures k in KeySet(keys) {
    }
    assert forall i :: 0 <= i < |keys| ==> keys[i] in KeySet(keys);
  }

  // ----- What the finished tables hold -----

  function Lookup(db: Db, table: string, k: string): (row: Option<Row>)
  {
    if table in db && k in db[table].rows then Some(db[table].rows[k]) else None
  }

  // Row by row, at any state part of the way: the new account at the keys of `a`, the new date at
  // the keys of `p`, the old row at any other key; other tables are not touched.
  lemma DoneRows(db: Db, shelf: Shelf, a: set<string>, p: set<string>, k: string, table: string)
    requires Proper(db, shelf, a, p)
    ensures k in a ==> k in shelf && shelf[k].accountInfo.Some?
    ensures k in p ==> k in shelf
    ensures Lookup(Done(db, shelf, a, p), table, k) ==
      if table == "account_info" && k in a then Some(AccountRow(SchemasOf(db).accounts.columns, k, shelf[k]))
      else if table == "password_expiration_date" && k in p then
        Some(DateRow(SchemasOf(db).dates.columns, k, shelf[k]))
      else Lookup(db, table, k)
  {
    TableNames();
    assert ACCOUNT_TABLE == "account_info" && PASSWORD_TABLE == "password_expiration_date";
    var s := SchemasOf(db);
    hide ACCOUNT_TABLE, PASSWORD_TABLE, AccountRow, DateRow, Overridden, Lookup, Prepared, SchemasOf, Readable, Takes;
    var accounts, dates := NewAccounts(s.accounts.columns, shelf, a), NewDates(s.dates.columns, shelf, p);
    assert k in accounts <==> k in a;
    assert k in dates <==> k in p;
    assert k in a ==> accounts[k] == AccountRow(s.accounts.columns, k, shelf[k]);
    assert k in p ==> dates[k] == DateRow(s.dates.columns, k, shelf[k]);
    hide NewAccounts, NewDates;
    PreparedLookup(db, k, table);
    OverrideLookup(Prepared(db), ACCOUNT_TABLE, accounts, k, table);
    OverrideLookup(Overridden(Prepared(db), ACCOUNT_TABLE, accounts), PASSWORD_TABLE, dates, k, table);
  }

  lemma PreparedLookup(db: Db, k: string, table: string)
    ensures Lookup(Prepared(db), table, k) == Lookup(db, table, k)
  {
  }

  lemma OverrideLookup(r: Db, t: string, rows: map<string, Row>, k: string, table: string)
    requires t in r
    ensures Overridden(r, t, rows).Keys == r.Keys
    ensures Lookup(Overridden(r, t, rows), table, k) ==
      if table == t && k in rows then Some(rows[k]) else Lookup(r, table, k)
  {
  }

  // Cell by cell, in any table that takes the account: the key, the text of each attribute the entry
  // has, and NULL for each it has not and for each column the script does not know.
  lemma AccountCells(s: Schemas, key: string, entry: Entry)
    requires TakesAccount(s, key, entry)
    ensures var row, info := AccountRow(s.accounts.columns, key, entry), entry.accountInfo.value;
      row.Keys == Blank(s.accounts.columns).Keys && HasValue(row, "key") && row["key"] == Some(key) &&
      (forall i :: 1 <= i < |ACCOUNT_INFO| ==>
        var item := ACCOUNT_INFO[i];
        item.name in info &&
        (info[item.name] == PyNone ==> !HasValue(row, item.name)) &&
        (info[item.name] != PyNone ==>
          HasValue(row, item.name) && Bound(item, info[item.name]) == row[item.name])) &&
      forall n :: HasValue(row, n) ==> exists i :: 0 <= i < |ACCOUNT_INFO| && ACCOUNT_INFO[i].name == n
  {
    FullCells(key, entry.accountInfo.value);
    PlacedCells(s.accounts, RowOf(ACCOUNT_INFO, key, entry.accountInfo.value));
    hide ACCOUNT_INFO, Bound, RowOf, Blank, Admits, Readable, Placed, Fits;
  }

  lemma FullCells(key: string, info: map<string, PyValue>)
    requires Readable(ACCOUNT_INFO, info)
    ensures ACCOUNT_INFO != []
    ensures var full := RowOf(ACCOUNT_INFO, key, info);
      HasValue(full, "key") && full["key"] == Some(key) &&
      (forall i :: 1 <= i < |ACCOUNT_INFO| ==>
        var item := ACCOUNT_INFO[i];
        item.name in info &&
        (info[item.name] == PyNone ==> !HasValue(full, item.name)) &&
        (info[item.name] != PyNone ==>
          HasValue(full, item.name) && Bound(item, info[item.name]) == full[item.name])) &&
      forall n :: HasValue(full, n) ==> exists i :: 0 <= i < |ACCOUNT_INFO| && ACCOUNT_INFO[i].name == n
  {
    AccountDescribed();
    DescribedKey(ACCOUNT_INFO);
    ItemsStart();
    assert KEY_ITEM.name == "key";
    hide ACCOUNT_INFO, KEY_ITEM, Bound, RowOf, Described, Distinct, KeyName;
    RowCells(ACCOUNT_INFO, key, info);
    FullRow(ACCOUNT_INFO, key, info);
    RowNames(ACCOUNT_INFO, key, info);
    forall i | 1 <= i < |ACCOUNT_INFO| ensures Reads(ACCOUNT_INFO[i], info) {
    }
  }

  lemma PlacedCells(s: Schema, full: Row)
    requires Fits(s, full)
    ensures var row := Placed(s.columns, full);
      row.Keys == Blank(s.columns).Keys &&
      forall n :: HasValue(row, n) == HasValue(full, n) && (HasValue(full, n) ==> row[n] == full[n])
  {
    hide Blank;
    var row := Placed(s.columns, full);
    forall n ensures HasValue(row, n) == HasValue(full, n) && (HasValue(full, n) ==> row[n] == full[n]) {
    }
  }

  // ----- The script and the laws -----

  // A run completes exactly when both rows of every key are taken, whatever the tables there are.
  lemma CompletesIff(db: Db, shelf: Shelf, keys: seq<string>)
    ensures Completes(db, Commands(shelf, keys)) <==> forall k :: k in keys ==> Taken(SchemasOf(db), shelf, k)
  {
    RunCompletes(db, shelf, keys, |keys|);
    assert keys[..|keys|] == keys;
    hide Completes, Commands, SchemasOf, Taken, Final;
    if forall j :: 0 <= j < |keys| ==> Taken(SchemasOf(db), shelf, keys[j]) {
      forall k | k in keys ensures Taken(SchemasOf(db), shelf, k) {
        var j :| 0 <= j < |keys| && keys[j] == k;
      }
    }
  }

  // Both tables are there and make these demands.
  ghost predicate Makes(db: Db, s: Schemas)
  {
    ACCOUNT_TABLE in db && PASSWORD_TABLE in db && SchemasOf(db) == s
  }

  lemma {:induction false} RunCompletes(db: Db, shelf: Shelf, keys: seq<string>, i: nat)
    requires i <= |keys|
    ensures Completes(db, Commands(shelf, keys[..i])) <==> Ready(SchemasOf(db), shelf, keys, i)
    ensures Completes(db, Commands(shelf, keys[..i])) ==> Makes(Final(db, Commands(shelf, keys[..i])), SchemasOf(db))
  {
    hide *;
    if i == 0 {
      StartCompletes(db, shelf, keys);
    } else {
      RunCompletes(db, shelf, keys, i - 1);
      CommandsAt(shelf, keys, i - 1);
      KeyCompletes(db, SchemasOf(db), shelf, Commands(shelf, keys[..i - 1]), keys[i - 1]);
      ReadyStep(SchemasOf(db), shelf, keys, i);
    }
  }

  lemma StartCompletes(db: Db, shelf: Shelf, keys: seq<string>)
    ensures Completes(db, Commands(shelf, keys[..0])) && Ready(SchemasOf(db), shelf, keys, 0)
    ensures Makes(Final(db, Commands(shelf, keys[..0])), SchemasOf(db))
  {
    CreatesBoth(db, shelf, keys);
    PreparedOnce(db);
    hide Prepared, Commands, Trace, WithAccounts, ACCOUNT_TABLE, PASSWORD_TABLE;
    assert Final(db, Commands(shelf, keys[..0])) == Prepared(db);
  }

  lemma ReadyStep(s: Schemas, shelf: Shelf, keys: seq<string>, i: nat)
    requires 0 < i <= |keys|
    ensures Ready(s, shelf, keys, i) <==> Ready(s, shelf, keys, i - 1) && Taken(s, shelf, keys[i - 1])
  {
    hide Taken;
  }

  lemma KeyCompletes(db: Db, s: Schemas, shelf: Shelf, commands: seq<Option<Command>>, k: string)
    ensures var all := commands + [AccountOf(shelf, k)] + [DateOf(shelf, k)];
      (!Completes(db, commands) ==> !Completes(db, all)) &&
      (Completes(db, commands) && Makes(Final(db, commands), s) ==>
        (Completes(db, all) <==> Taken(s, shelf, k)) && (Completes(db, all) ==> Makes(Final(db, all), s)))
  {
    var a, b, before := AccountOf(shelf, k), DateOf(shelf, k), Final(db, commands);
    hide ACCOUNT_TABLE, PASSWORD_TABLE, SchemasOf, Step, AccountOf, DateOf, TakesAccount, TakesDate, Trace, Final;
    if !Completes(db, commands) {
      NoMore(db, commands, [a] + [b]);
      assert commands + ([a] + [b]) == commands + [a] + [b];
    } else if Makes(before, s) {
      AccountStores(before, shelf, k);
      RanOne(db, commands, a);
      if Step(before, a).Some? {
        DateStores(Final(db, commands + [a]), shelf, k);
        RanOne(db, commands + [a], b);
      } else {
        NoMore(db, commands + [a], [b]);
      }
    }
  }

  // What a run leaves, and that no state it commits on the way is anything but part of it.
  lemma RunLeaves(db: Db, shelf: Shelf, keys: seq<string>)
    requires Keyed(db)
    ensures Final(db, Commands(shelf, keys)) == Standing(db, shelf, keys, Total(SchemasOf(db), shelf, keys))
    ensures forall i :: 0 <= i < |Trace(db, Commands(shelf, keys))| ==>
      PartWay(db, shelf, Trace(db, Commands(shelf, keys))[i])
  {
    var commands := Commands(shelf, keys);
    hide Trace, Commands, Keyed, PartWay, Standing, Total, SchemasOf;
    StateAfter(db, shelf, keys, |Trace(db, commands)|);
    StartIsPartWay(db, shelf);
    forall i | 0 <= i < |Trace(db, commands)| ensures PartWay(db, shelf, Trace(db, commands)[i]) {
      OneCrash(db, shelf, db, keys, i + 1);
    }
  }

  // The script from opening the database on. It succeeds exactly when both rows of every key are
  // taken by the tables that are there or that it creates. With `key` as their primary key, the
  // old tables are overridden at every key of the shelf. If not, they are overridden at the keys
  // before the first bad one, and in the account table also at this one if only its date is not
  // taken. Nothing it commits on the way is anything but part of it.
  method ConvertShelf(shelf: Shelf, keys: seq<string>, start: Db) returns (db: Database, ok: bool)
    requires Enumerates(keys, shelf)
    ensures fresh(db) && db.committed == db.pending
    ensures ok <==> AllTaken(SchemasOf(start), shelf)
    ensures Keyed(start) && ok ==> db.committed == Done(start, shelf, shelf.Keys, shelf.Keys)
    ensures Keyed(start) ==>
      var g, h := Good(SchemasOf(start), shelf, keys), Reached(SchemasOf(start), shelf, keys);
      db.committed == Done(start, shelf, KeySet(keys[..h]), KeySet(keys[..g]))
    ensures Keyed(start) ==> forall s :: s in db.history ==> PartWay(start, shelf, s)
  {
    hide Trace, Commands, Keyed, PartWay, Done, Final, SchemasOf, Taken, AccountTaken, Standing;
    db := new Database(start);
    ok := Migrate(shelf, keys, db);
    CompletesIff(start, shelf, keys);
    ReadyIsAll(SchemasOf(start), shelf, keys);
    if Keyed(start) {
      RunLeaves(start, shelf, keys);
    }
    EndOf(start, SchemasOf(start), shelf, keys);
    if ok {
      AllReached(SchemasOf(start), shelf, keys);
    }
  }

  // The last state of a run, by where it ended.
  lemma EndOf(db: Db, s: Schemas, shelf: Shelf, keys: seq<string>)
    ensures Standing(db, shelf, keys, Total(s, shelf, keys)) ==
      Done(db, shelf, KeySet(keys[..Reached(s, shelf, keys)]), KeySet(keys[..Good(s, shelf, keys)]))
  {
    hide Done, KeySet, Standing, AccountTaken, WithAccounts, Good;
    var g, h := Good(s, shelf, keys), Reached(s, shelf, keys);
    StandingKeys(db, shelf, keys, g);
    if g < h {
      StandingNext(db, shelf, keys, g);
    }
  }

  // A run that takes every key ends at its last key.
  lemma AllReached(s: Schemas, shelf: Shelf, keys: seq<string>)
    requires Ready(s, shelf, keys, |keys|)
    ensures Good(s, shelf, keys) == Reached(s, shelf, keys) == |keys| && keys[..|keys|] == keys
  {
    hide Taken;
    GoodOnly(s, shelf, keys, |keys|);
  }
}
