/** The two tables of the migration are well described. */
module MigrationTables {
  import opened Text
  import opened Sql
  import opened Migration
  import opened MigrationRows

  // A number by which the names differ.
  function Signature(s: string): (n: int)
  {
    if s == "" then 0 else |s| * 1000000 + s[0] as int * 1000 + s[|s| - 1] as int
  }

  predicate IsDecl(decl: string)
  {
    decl == "TEXT NOT NULL PRIMARY KEY" || decl == "TEXT NOT NULL" || decl == "TEXT" || decl == "INTEGER" ||
    decl == "DATETIME" || decl == "BOOLEAN"
  }

  predicate IsWord(s: string)
  {
    s != "" && forall i :: 0 <= i < |s| ==> 'a' <= s[i] <= 'z' || 'A' <= s[i] <= 'Z'
  }

  lemma DeclLaws(decl: string)
    requires IsDecl(decl)
    ensures ',' !in decl && '(' !in decl && ')' !in decl
  {
  }

  lemma DeclMeans(name: string, decl: string)
    ensures decl == "TEXT NOT NULL" ==> NotNull(Column(name, decl))
    ensures decl == "TEXT" || decl == "INTEGER" || decl == "DATETIME" || decl == "BOOLEAN" ==>
      !NotNull(Column(name, decl))
  {
    if decl == "TEXT NOT NULL" {
      assert decl[5..13] == "NOT NULL";
      assert At(decl, "NOT NULL", 5);
    }
    if decl == "DATETIME" {
      assert !At(decl, "NOT NULL", 0) by {
        assert decl[0..8][0] == 'D';
      }
    }
  }

  lemma KeyDecl()
    ensures Contains(KEY_ITEM.decl, "PRIMARY KEY")
  {
    assert |KEY_ITEM.decl| == 25 && KEY_ITEM.decl[14..25] == "PRIMARY KEY";
    assert At(KEY_ITEM.decl, "PRIMARY KEY", 14);
  }

  lemma WordLaws(s: string)
    requires IsWord(s)
    ensures Plain(s) && ' ' !in s
  {
  }

  const SIGNATURES: seq<int> := [
    3107121, 4100068, 6100101, 2105099, 11112101,
    12112101, 10112101, 17112104, 8102101, 6098101,
    6098121, 8098121, 7098101, 6097121, 8097116,
    16097116, 22097121, 9097101, 7097101, 11110121,
    10105114, 12114101, 7100101, 14100077, 16100103
  ]

  // Every name is a word; together with its signature.
  predicate Word(name: string, signature: int) { IsWord(name) && Signature(name) == signature }

  lemma Words1()
    ensures Word("key", 3107121)
    ensures Word("dbID", 4100068)
    ensures Word("dbType", 6100101)
    ensures Word("ic", 2105099)
    ensures Word("pnFirstName", 11112101)
  {
  }

  lemma Words2()
    ensures Word("pnMiddleName", 12112101)
    ensures Word("pnLastName", 10112101)
    ensures Word("pnLastNameAtBirth", 17112104)
    ensures Word("firmName", 8102101)
    ensures Word("biDate", 6098101)
  {
  }

  lemma Words3()
    ensures Word("biCity", 6098121)
    ensures Word("biCounty", 8098121)
    ensures Word("biState", 7098101)
    ensures Word("adCity", 6097121)
    ensures Word("adStreet", 8097116)
  {
  }

  lemma Words4()
    ensures Word("adNumberInStreet", 16097116)
    ensures Word("adNumberInMunicipality", 22097121)
    ensures Word("adZipCode", 9097101)
    ensures Word("adState", 7097101)
    ensures Word("nationality", 11110121)
  {
  }

  lemma Words5()
    ensures Word("identifier", 10105114)
    ensures Word("registryCode", 12114101)
    ensures Word("dbState", 7100101)
    ensures Word("dbEffectiveOVM", 14100077)
    ensures Word("dbOpenAddressing", 16100103)
  {
  }

  lemma Names1()
    ensures ACCOUNT_INFO[0].name == "key" && SIGNATURES[0] == 3107121
    ensures ACCOUNT_INFO[1].name == "dbID" && SIGNATURES[1] == 4100068
    ensures ACCOUNT_INFO[2].name == "dbType" && SIGNATURES[2] == 6100101
    ensures ACCOUNT_INFO[3].name == "ic" && SIGNATURES[3] == 2105099
    ensures ACCOUNT_INFO[4].name == "pnFirstName" && SIGNATURES[4] == 11112101
  {
  }

  lemma Names2()
    ensures ACCOUNT_INFO[5].name == "pnMiddleName" && SIGNATURES[5] == 12112101
    ensures ACCOUNT_INFO[6].name == "pnLastName" && SIGNATURES[6] == 10112101
    ensures ACCOUNT_INFO[7].name == "pnLastNameAtBirth" && SIGNATURES[7] == 17112104
  {
  }

  lemma Names6()
    ensures ACCOUNT_INFO[8].name == "firmName" && SIGNATURES[8] == 8102101
    ensures ACCOUNT_INFO[9].name == "biDate" && SIGNATURES[9] == 6098101
  {
  }

  lemma Names3()
    ensures ACCOUNT_INFO[10].name == "biCity" && SIGNATURES[10] == 6098121
    ensures ACCOUNT_INFO[11].name == "biCounty" && SIGNATURES[11] == 8098121
    ensures ACCOUNT_INFO[12].name == "biState" && SIGNATURES[12] == 7098101
    ensures ACCOUNT_INFO[13].name == "adCity" && SIGNATURES[13] == 6097121
    ensures ACCOUNT_INFO[14].name == "adStreet" && SIGNATURES[14] == 8097116
  {
  }

  lemma Names4()
    ensures ACCOUNT_INFO[15].name == "adNumberInStreet" && SIGNATURES[15] == 16097116
    ensures ACCOUNT_INFO[16].name == "adNumberInMunicipality" && SIGNATURES[16] == 22097121
    ensures ACCOUNT_INFO[17].name == "adZipCode" && SIGNATURES[17] == 9097101
    ensures ACCOUNT_INFO[18].name == "adState" && SIGNATURES[18] == 7097101
    ensures ACCOUNT_INFO[19].name == "nationality" && SIGNATURES[19] == 11110121
  {
  }

  lemma Names5()
    ensures ACCOUNT_INFO[20].name == "identifier" && SIGNATURES[20] == 10105114
    ensures ACCOUNT_INFO[21].name == "registryCode" && SIGNATURES[21] == 12114101
    ensures ACCOUNT_INFO[22].name == "dbState" && SIGNATURES[22] == 7100101
    ensures ACCOUNT_INFO[23].name == "dbEffectiveOVM" && SIGNATURES[23] == 14100077
    ensures ACCOUNT_INFO[24].name == "dbOpenAddressing" && SIGNATURES[24] == 16100103
  {
  }

  lemma AccountDecls()
    ensures |ACCOUNT_INFO| == 25
    ensures forall i :: 0 <= i < 25 ==> IsDecl(ACCOUNT_INFO[i].decl)
    ensures ACCOUNT_INFO[0] == KEY_ITEM && ACCOUNT_INFO[1] == ID_ITEM
    ensures forall i :: 2 <= i < 25 ==> ACCOUNT_INFO[i].decl in {"TEXT", "INTEGER", "DATETIME", "BOOLEAN"}
  {
  }

  lemma SignaturesDiffer()
    ensures |SIGNATURES| == 25
    ensures forall i, j :: 0 <= i < j < 25 ==> SIGNATURES[i] != SIGNATURES[j]
  {
  }

  lemma AccountNames()
    ensures |ACCOUNT_INFO| == 25 == |SIGNATURES|
    ensures forall i :: 0 <= i < 25 ==> Word(ACCOUNT_INFO[i].name, SIGNATURES[i])
  {
    Structure();
    SignaturesDiffer();
    Names1(); Names2(); Names3(); Names4(); Names5(); Names6();
    Words1(); Words2(); Words3(); Words4(); Words5();
    hide ACCOUNT_INFO, SIGNATURES, Word;
    forall i | 0 <= i < 25 ensures Word(ACCOUNT_INFO[i].name, SIGNATURES[i]) {
    }
  }

  lemma AccountDistinct()
    ensures Distinct(ACCOUNT_INFO)
  {
    AccountNames();
    SignaturesDiffer();
    hide ACCOUNT_INFO, SIGNATURES, IsWord, Signature;
    forall i, j | 0 <= i < j < |ACCOUNT_INFO| ensures ACCOUNT_INFO[i].name != ACCOUNT_INFO[j].name {
      assert SIGNATURES[i] != SIGNATURES[j];
    }
  }

  lemma KeyFirst(items: seq<Item>)
    requires items != [] && items[0] == KEY_ITEM
    ensures KeyName(Columns(items)) == Some(items[0].name)
  {
    KeyDecl();
    hide KEY_ITEM, Contains;
  }

  lemma AccountDescribed()
    ensures Described(ACCOUNT_INFO)
  {
    AccountDistinct();
    AccountNames();
    AccountDecls();
    KeyFirst(ACCOUNT_INFO);
    hide ACCOUNT_INFO, SIGNATURES, IsWord, Signature, IsDecl, KEY_ITEM, ID_ITEM;
    forall i | 0 <= i < |ACCOUNT_INFO|
      ensures Plain(ACCOUNT_INFO[i].name) && ' ' !in ACCOUNT_INFO[i].name && ',' !in ACCOUNT_INFO[i].decl &&
        '(' !in ACCOUNT_INFO[i].decl && ')' !in ACCOUNT_INFO[i].decl
    {
      WordLaws(ACCOUNT_INFO[i].name);
      DeclLaws(ACCOUNT_INFO[i].decl);
    }
  }

  // Apart from its key, an account must only have its box identifier.
  lemma AccountSufficient(info: map<string, PyValue>)
    ensures Sufficient(ACCOUNT_INFO, info) <==> CellOf(ID_ITEM, info).Some?
  {
    AccountDecls();
    DeclMeans(ID_ITEM.name, ID_ITEM.decl);
    assert ID_ITEM.decl == "TEXT NOT NULL";
    hide ACCOUNT_INFO, CellOf, NotNull, ID_ITEM, KEY_ITEM, IsDecl;
    forall i | 2 <= i < |ACCOUNT_INFO| ensures !NotNull(Column(ACCOUNT_INFO[i].name, ACCOUNT_INFO[i].decl)) {
      DeclMeans(ACCOUNT_INFO[i].name, ACCOUNT_INFO[i].decl);
    }
  }

  lemma PasswordDescribed()
    ensures Described(PASSWORD_INFO)
  {
    WordLaws("key");
    WordLaws("expDate");
    DeclLaws(KEY_ITEM.decl);
    DeclLaws(DATE_ITEM.decl);
    KeyFirst(PASSWORD_INFO);
    assert KEY_ITEM.name[0] == 'k' && DATE_ITEM.name[0] == 'e';
    hide Plain, KeyName;
  }

  lemma PasswordSufficient(entry: Entry)
    ensures Readable(PASSWORD_INFO, DateInfo(entry)) && Sufficient(PASSWORD_INFO, DateInfo(entry))
  {
    DeclMeans(DATE_ITEM.name, DATE_ITEM.decl);
    hide KEY_ITEM, NotNull;
  }

  lemma TableNames()
    ensures '(' !in ACCOUNT_TABLE && '(' !in PASSWORD_TABLE && ACCOUNT_TABLE != PASSWORD_TABLE
  {
    assert |ACCOUNT_TABLE| == 12 && |PASSWORD_TABLE| == 24;
  }
}
