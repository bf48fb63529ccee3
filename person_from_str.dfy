/** `Person`, `ParsePersonError` and `impl FromStr for Person` of
    exercises/conversions/from_str.rs: a text `name,age` becomes a person, and
    every malformed text becomes the one error `ParsePersonError("parse error")`. */
module PersonFromStr {
  import opened Wrappers
  import opened StrSplit
  import opened UsizeParse

  datatype Person = Person(name: string, age: Usize)

  /** The error carries a detail message; the parser only ever uses "parse error". */
  datatype ParsePersonError = ParsePersonError(detail: string)

  const PARSE_ERROR: ParsePersonError := ParsePersonError("parse error")

  /** The text the `Display` implementation writes for an error. */
  function Display(e: ParsePersonError): (r: string)
    ensures |r| == 19 + |e.detail|
    ensures r[..19] == "There is an error: " && r[19..] == e.detail
  {
    "There is an error: " + e.detail
  }

  /** `Person::from_str`: reject the empty text, then go on with `ParseFields`. */
  function FromStr(s: string): (r: Result<Person, ParsePersonError>)
    ensures r.Err? ==> r.error == PARSE_ERROR
    ensures r.Ok? ==> r.value.name != [] && ',' !in r.value.name
  {
    if |s| == 0 then Err(PARSE_ERROR)
    else ParseFields(s)
  }

  /** The body of `Person::from_str` after the empty-text check: split on
      commas, demand exactly two pieces and a non-empty first one, and parse
      the second as a `usize`. */
  function ParseFields(s: string): (r: Result<Person, ParsePersonError>)
    ensures r.Err? ==> r.error == PARSE_ERROR
    ensures r.Ok? ==> r.value.name != [] && ',' !in r.value.name
  {
    var strs := Split(s, ',');
    if |strs| != 2 || |strs[0]| == 0 then Err(PARSE_ERROR)
    else
      var name := strs[0];
      var ageStr := strs[1];
      match ParseUsize(ageStr)
      case Some(a) => Ok(Person(name, a))
      case None => Err(PARSE_ERROR)
  }

  /** The text `{name},{age}` of a person, the age in canonical decimal. */
  function Format(p: Person): string
  {
    p.name + [','] + ToDecimal(p.age)
  }

  /** `s` is the text of person `p`: `p.name`, which is non-empty and holds no
      comma, then one comma, then a comma-free age text that parses as a
      `usize` to `p.age`. */
  predicate Describes(s: string, p: Person)
  {
    && p.name != [] && ',' !in p.name
    && |s| > |p.name| && s[..|p.name|] == p.name && s[|p.name|] == ','
    && ',' !in s[|p.name| + 1..]
    && ParseUsize(s[|p.name| + 1..]) == Some(p.age)
  }

  /** A text made of two comma-free fields around one comma splits into
      exactly those two fields. */
  lemma SplitFields(name: string, ageStr: string)
    requires ',' !in name && ',' !in ageStr
    ensures Split(name + [','] + ageStr, ',') == [name, ageStr]
  {
    SplitJoin([name, ageStr], ',');
    assert Join([ageStr], ',') == ageStr;
    assert [name, ageStr][1..] == [ageStr];
  }

  /** On a text made of two comma-free fields around one comma, the parse
      fails on an empty name and otherwise succeeds exactly when the age text
      parses as a `usize`, with the name taken as it is. */
  lemma FromStrFields(name: string, ageStr: string)
    requires ',' !in name && ',' !in ageStr
    ensures FromStr(name + [','] + ageStr) ==
      if name == [] then Err(PARSE_ERROR)
      else match ParseUsize(ageStr)
        case Some(a) => Ok(Person(name, a))
        case None => Err(PARSE_ERROR)
  {
    SplitFields(name, ageStr);
  }

  /** The parse gives person `p` exactly when the text describes `p`. */
  lemma FromStrOkIff(s: string, p: Person)
    ensures FromStr(s) == Ok(p) <==> Describes(s, p)
  {
    if FromStr(s) == Ok(p) {
      var strs := Split(s, ',');
      JoinSplit(s, ',');
      assert [strs[1]][0] == strs[1];
      assert s == strs[0] + [','] + strs[1];
      assert s[..|p.name|] == p.name;
      assert s[|p.name| + 1..] == strs[1];
    }
    if Describes(s, p) {
      var n := |p.name|;
      var ageStr := s[n + 1..];
      assert s == p.name + [','] + ageStr;
      FromStrFields(p.name, ageStr);
    }
  }

  /** The parse succeeds only on a text with exactly one comma; no comma, or
      two and more, give the error. */
  lemma OneCommaNeeded(s: string)
    ensures multiset(s)[','] != 1 ==> FromStr(s) == Err(PARSE_ERROR)
  {
    SplitCount(s, ',');
  }

  /** A text with two commas or more is rejected, even when what follows
      the second comma is empty. */
  lemma TwoCommasRejected(a: string, b: string, c: string)
    ensures FromStr(a + [','] + b + [','] + c) == Err(PARSE_ERROR)
  {
    var s := a + [','] + b + [','] + c;
    assert multiset(s)[','] >= 2 by {
      assert multiset(s) == multiset(a) + multiset([',']) + multiset(b) + multiset([',']) + multiset(c);
    }
    OneCommaNeeded(s);
  }

  /** An empty name is rejected whatever follows the comma. */
  lemma EmptyNameRejected(ageStr: string)
    ensures FromStr([','] + ageStr) == Err(PARSE_ERROR)
  {
    assert ([','] + ageStr)[1..] == ageStr;
  }

  /** With a well-formed name, an age text that `usize::from_str` rejects
      (empty, a non-digit other than one leading `+`, above `USIZE_MAX`)
      makes the whole parse fail. */
  lemma BadAgeRejected(name: string, ageStr: string)
    requires ',' !in name && ',' !in ageStr
    requires ParseUsize(ageStr) == None
    ensures FromStr(name + [','] + ageStr) == Err(PARSE_ERROR)
  {
    FromStrFields(name, ageStr);
  }

  /** Formatting a person whose name is non-empty and comma-free and parsing
      the text gives the same person back. */
  lemma RoundTrip(p: Person)
    requires p.name != [] && ',' !in p.name
    ensures FromStr(Format(p)) == Ok(p)
  {
    var ageStr := ToDecimal(p.age);
    assert ',' !in ageStr by {
      assert !IsDigit(',');
    }
    FromStrFields(p.name, ageStr);
    ParseToDecimal(p.age);
  }

  /** Every person the parser produces survives formatting and parsing again. */
  lemma ReparseFormatted(s: string)
    requires FromStr(s).Ok?
    ensures FromStr(Format(FromStr(s).value)) == FromStr(s)
  {
    RoundTrip(FromStr(s).value);
  }

  /** The empty-text check at the top of `from_str` is redundant: splitting
      the empty text gives one (empty) piece, which the piece-count check
      already rejects. */
  lemma EmptyCheckRedundant(s: string)
    ensures ParseFields(s) == FromStr(s)
  {
  }

  /** The empty text is rejected. */
  lemma EmptyInputRejected()
    ensures FromStr("") == Err(PARSE_ERROR)
  {
  }

  /** Every error renders as the same message. */
  lemma ErrorMessage(s: string)
    requires FromStr(s).Err?
    ensures Display(FromStr(s).error) == "There is an error: parse error"
  {
  }

  /** Test `good_input`. */
  lemma GoodInput()
    ensures FromStr("John,32") == Ok(Person("John", 32))
  {
    assert "John,32" == "John" + [','] + "32";
    FromStrFields("John", "32");
    assert DecimalValue("32") == 32 by {
      assert "32"[..1] == "3";
    }
  }

  /** An age with one leading `+`, which `usize::from_str` accepts. */
  lemma PlusSignedAge()
    ensures FromStr("John,+32") == Ok(Person("John", 32))
  {
    assert "John,+32" == "John" + [','] + "+32";
    FromStrFields("John", "+32");
    ParsePlus("32");
    assert DecimalValue("32") == 32 by {
      assert "32"[..1] == "3";
    }
  }

  /** Test `missing_age`. */
  lemma MissingAge()
    ensures FromStr("John,") == Err(PARSE_ERROR)
  {
    assert "John," == "John" + [','] + "";
    BadAgeRejected("John", "");
  }

  /** Test `invalid_age`. */
  lemma InvalidAge()
    ensures FromStr("John,twenty") == Err(PARSE_ERROR)
  {
    assert "John,twenty" == "John" + [','] + "twenty";
    ParseRejectsNonDigit("twenty", 0);
    BadAgeRejected("John", "twenty");
  }

  /** Test `missing_comma_and_age`. */
  lemma MissingCommaAndAge()
    ensures FromStr("John") == Err(PARSE_ERROR)
  {
    assert ',' !in "John";
    OneCommaNeeded("John");
  }

  /** Test `trailing_comma`. */
  lemma TrailingComma()
    ensures FromStr("John,32,") == Err(PARSE_ERROR)
  {
    assert "John,32," == "John" + [','] + "32" + [','] + "";
    TwoCommasRejected("John", "32", "");
  }

  /** Test `trailing_comma_and_some_string`. */
  lemma TrailingCommaAndSomeString()
    ensures FromStr("John,32,man") == Err(PARSE_ERROR)
  {
    assert "John,32,man" == "John" + [','] + "32" + [','] + "man";
    TwoCommasRejected("John", "32", "man");
  }

  /** Tests `missing_name`, `missing_name_and_age` and
      `missing_name_and_invalid_age`. */
  lemma MissingName()
    ensures FromStr(",1") == Err(PARSE_ERROR)
    ensures FromStr(",") == Err(PARSE_ERROR)
    ensures FromStr(",one") == Err(PARSE_ERROR)
  {
    assert ",1" == [','] + "1";
    assert "," == [','] + "";
    assert ",one" == [','] + "one";
    EmptyNameRejected("1");
    EmptyNameRejected("");
    EmptyNameRejected("one");
  }
}
