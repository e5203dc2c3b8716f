/** The version strings of src/about.cpp: normalising, parsing and comparing them. */
module Version {
  import opened Text
  import opened Regex
  import opened Strings
  import opened Decimal
  import opened Int32

  // The expressions of the normaliser, and the one a version must match.
  const LEADING: seq<Item> := [Begin, Many(Other)]
  const TRAILING: seq<Item> := [One(Other), Many(NotLineFeed), End]
  const LEADING_DOTS: seq<Item> := [Begin, Many(Dot)]
  const TRAILING_DOTS: seq<Item> := [Many(Dot), End]
  const VERSION: seq<Item> :=
    [One(Digit), Many(Digit), One(Dot), One(Digit), Many(Digit), One(Dot), One(Digit), Many(Digit)]

  function Stripped(s: string): (text: string)
  {
    RemoveAll(TRAILING_DOTS, RemoveAll(LEADING_DOTS, RemoveAll(TRAILING, RemoveAll(LEADING, s))))
  }

  // The expression is not anchored: it matches somewhere, and the match is as long as the text.
  predicate MatchesWhole(v: string)
  {
    var m := Search(VERSION, v, 0);
    m.Some? && m.value.1 - m.value.0 == |v|
  }

  method StripVersionString(vStr: QString) returns (ok: bool)
    modifies vStr
    ensures vStr.text == Stripped(old(vStr.text))
    ensures ok == MatchesWhole(vStr.text)
  {
    vStr.Remove(LEADING);
    vStr.Remove(TRAILING);
    vStr.Remove(LEADING_DOTS);
    vStr.Remove(TRAILING_DOTS);

    var m := Search(VERSION, vStr.text, 0);
    return m.Some? && m.value.1 - m.value.0 == |vStr.text|;
  }

  // A number that fits the 32-bit int of the program.
  function ToInt(s: string): (r: Option<nat>)
  {
    if s != "" && AllDigits(s) && Value(s) <= INT_MAX then Some(Value(s)) else None
  }

  // In the order of the text; the program calls the second component micro and the third minor.
  datatype Number = Number(major: int, micro: int, minor: int)

  const NULL_NUMBER := Number(-1, -1, -1)

  predicate IsNull(v: Number) { v.major < 0 || v.micro < 0 || v.minor < 0 }

  function Element(s: string): (n: int)
  {
    match ToInt(s) case Some(n) => n case None => -1
  }

  function Parsed(s: string): (number: Number)
  {
    var elements := Split(s, '.');
    if |elements| != 3 then NULL_NUMBER
    else Number(Element(elements[0]), Element(elements[1]), Element(elements[2]))
  }

  method FromString(str: string) returns (verNum: Number)
    ensures verNum == Parsed(str)
  {
    verNum := NULL_NUMBER;
    var elemNum := 3;
    var elemList := Split(str, '.');
    if |elemList| != elemNum {
      return;
    }
    var elemVect: seq<int> := [-1, -1, -1];
    for i := 0 to elemNum
      invariant |elemVect| == 3
      invariant forall k :: 0 <= k < i ==> elemVect[k] == Element(elemList[k])
    {
      var number := ToInt(elemList[i]);
      elemVect := elemVect[i := if number.Some? then number.value else -1];
    }
    verNum := Number(elemVect[0], elemVect[1], elemVect[2]);
  }

  function CompareNumbers(v1: Number, v2: Number): (n: int)
  {
    if v1.major < v2.major then -1
    else if v1.major > v2.major then 1
    else if v1.micro < v2.micro then -1
    else if v1.micro > v2.micro then 1
    else if v1.minor < v2.minor then -1
    else if v1.minor > v2.minor then 1
    else 0
  }

  function Compare(vStr1: string, vStr2: string): (n: int)
  {
    var vs1, vs2 := Stripped(vStr1), Stripped(vStr2);
    if !MatchesWhole(vs1) then -2
    else if !MatchesWhole(vs2) then 2
    else if IsNull(Parsed(vs1)) then -2
    else if IsNull(Parsed(vs2)) then 2
    else CompareNumbers(Parsed(vs1), Parsed(vs2))
  }

  method CompareVersionStrings(vStr1: string, vStr2: string) returns (r: int)
    ensures r == Compare(vStr1, vStr2)
  {
    var vs1 := new QString(vStr1);
    var vs2 := new QString(vStr2);

    var ok := StripVersionString(vs1);
    if !ok {
      return -2;
    }
    ok := StripVersionString(vs2);
    if !ok {
      return 2;
    }

    var v1 := FromString(vs1.text);
    if IsNull(v1) {
      return -2;
    }
    var v2 := FromString(vs2.text);
    if IsNull(v2) {
      return 2;
    }

    var cmp := CompareNumbers(v1, v2);
    if cmp < 0 {
      return -1;
    } else if cmp == 0 {
      return 0;
    } else {
      return 1;
    }
  }
}
