/** `NameParser`: turns one raw line into a `PersonName`, or raises one of three errors. */
module NameParser {
  import opened Outcomes
  import opened Text
  import opened PersonNames
  import NameValidator

  /** Some part is made of white characters only (`string.IsNullOrWhiteSpace(part)`). */
  predicate HasWhitePart(parts: seq<string>) {
    exists k | 0 <= k < |parts| :: AllWhite(parts[k])
  }

  /** `NameParser.Parse`. The three checks run in this order: null or blank
      input, fewer than two parts, a part that is only whitespace. Because
      `Trim` cuts every white character but `Split` cuts only at `' '`, a tab
      between two spaces survives as a part of its own and trips the third check. */
  function Parse(name: Option<string>): (r: Result<PersonName>)
    ensures name.None? ==> r == Err(BlankName)
    ensures name.Some? ==> (r == Err(BlankName) <==> |Tokens(name.value)| == 0)
    ensures name.Some? ==> (r == Err(TooFewParts) <==> |Tokens(name.value)| == 1)
    ensures name.Some? ==> (r == Err(InvalidPart) <==> |Tokens(name.value)| >= 2 && HasWhitePart(Tokens(name.value)))
    ensures r.Ok? ==> |r.value.givenNames| >= 1 && Parts(r.value) == Tokens(name.value)
  {
    if name.None? || AllWhite(name.value) then
      Err(BlankName)
    else
      var parts := Tokens(name.value);
      if |parts| < 2 then
        Err(TooFewParts)
      else if HasWhitePart(parts) then
        Err(InvalidPart)
      else
        assert parts == parts[..|parts| - 1] + [Last(parts)];
        Ok(PersonName(Last(parts), parts[..|parts| - 1]))
  }

  /** Parsing succeeds exactly on names with at least two parts none of which is
      white only; there is no upper bound on the number of parts. */
  lemma ParseSucceedsIff(name: string)
    ensures Parse(Some(name)).Ok? <==> |Tokens(name)| >= 2 && !HasWhitePart(Tokens(name))
  {
  }

  /** A line the validator keeps parses to a record with one to three given
      names, unless one of its parts is white only. */
  lemma ParseValidatedName(name: string)
    requires NameValidator.IsValidNameFormat(name)
    ensures var r := Parse(Some(name));
      (r.Ok? || r == Err(InvalidPart))
      && (r.Ok? ==> 1 <= |r.value.givenNames| <= 3)
      && (r.Ok? <==> !HasWhitePart(Tokens(name)))
  {
  }

  /** Rendering a parsed name gives the input with outer white cut and runs of
      spaces collapsed to one. */
  lemma RenderOfParse(name: string)
    requires Parse(Some(name)).Ok?
    ensures Render(Parse(Some(name)).value) == Normalize(name)
  {
    var p := Parse(Some(name)).value;
    var ws := Tokens(name);
    TokensBoundaries(name);
    JoinSnoc(p.givenNames, p.lastName);
    JoinBoundaries(ws);
    TrimUnchanged(Join(ws));
  }

  /** Normalizing a name first does not change what the parser returns. */
  lemma ParseOfNormalize(name: string)
    ensures Parse(Some(Normalize(name))) == Parse(Some(name))
  {
    NormalizeKeepsTokens(name);
  }

  /** A record whose parts are clean and which has a given name survives
      rendering and parsing again unchanged. */
  lemma ParseOfRender(p: PersonName)
    requires HasCleanParts(p) && |p.givenNames| >= 1
    ensures Parse(Some(Render(p))) == Ok(p)
  {
    var s := Render(p);
    var parts := Parts(p);
    assert Tokens(s) == parts && !HasWhitePart(parts) by {
      RenderJoinsParts(p);
      CleanPartsNotWhite(p);
    }
    ParseOfParts(s, parts);
    assert Last(parts) == p.lastName && parts[..|parts| - 1] == p.givenNames;
  }

  /** A name whose parts are known parses to its last part and the parts before it. */
  lemma ParseOfParts(name: string, parts: seq<string>)
    requires Tokens(name) == parts && |parts| >= 2 && !HasWhitePart(parts)
    ensures Parse(Some(name)) == Ok(PersonName(Last(parts), parts[..|parts| - 1]))
  {
  }

  lemma NoWhitePartWhenFirstCharsShow(parts: seq<string>)
    requires forall k | 0 <= k < |parts| :: parts[k] != [] && !IsWhite(parts[k][0])
    ensures !HasWhitePart(parts)
  {
  }

  lemma CleanPartsNotWhite(p: PersonName)
    requires HasCleanParts(p)
    ensures forall k | 0 <= k < |Parts(p)| :: !AllWhite(Parts(p)[k])
  {
    var parts := Parts(p);
    forall k | 0 <= k < |parts|
      ensures !AllWhite(parts[k])
    {
      if k < |p.givenNames| {
        assert parts[k] == p.givenNames[k];
      }
      assert !IsWhite(parts[k][0]);
    }
  }

  lemma ParseExampleGivenNamesInOrder()
    ensures Parse(Some("John Michael Doe")) == Ok(PersonName("Doe", ["John", "Michael"]))
  {
    var parts := ["John", "Michael", "Doe"];
    assert Tokens("John Michael Doe") == parts by {
      assert Join(parts) == "John Michael Doe" by {
        assert Join(parts[1..]) == "Michael Doe";
      }
      TokensOfJoin(parts);
    }
    assert !HasWhitePart(parts) by {
      NoWhitePartWhenFirstCharsShow(parts);
    }
    ParseOfParts("John Michael Doe", parts);
    assert Last(parts) == "Doe" && parts[..|parts| - 1] == ["John", "Michael"];
  }

  lemma ParseExampleLastNameOnly()
    ensures Parse(Some("Doe")) == Err(TooFewParts)
  {
    TokensOfJoin(["Doe"]);
  }

  lemma ParseExampleBlank()
    ensures Parse(None) == Err(BlankName)
    ensures Parse(Some("")) == Err(BlankName)
    ensures Parse(Some("   ")) == Err(BlankName)
  {
    assert AllWhite("   ");
  }

  lemma ParseExampleExtraSpaces()
    ensures Parse(Some("  John   Doe  ")) == Ok(PersonName("Doe", ["John"]))
  {
    var parts := ["John", "Doe"];
    assert Tokens("  John   Doe  ") == parts by {
      TokensOfPaddedName();
    }
    assert !HasWhitePart(parts) by {
      NoWhitePartWhenFirstCharsShow(parts);
    }
    ParseOfParts("  John   Doe  ", parts);
    assert Last(parts) == "Doe" && parts[..1] == ["John"];
  }

  lemma TokensOfPaddedName()
    ensures Tokens("  John   Doe  ") == ["John", "Doe"]
  {
    TrimOfPaddedName();
    SplitOfSpacedName();
  }

  lemma TrimOfPaddedName()
    ensures Trim("  John   Doe  ") == "John   Doe"
  {
    assert "  John   Doe  " == "  " + "John   Doe" + "  ";
    assert AllWhite("  ");
    TrimPadded("  ", "John   Doe", "  ");
  }

  lemma SplitOfSpacedName()
    ensures SplitOnSpace("John   Doe") == ["John", "Doe"]
  {
    assert "John   Doe" == "John" + "   " + "Doe";
    SplitOnSpaceOfSpacedWords("John", "   ", "Doe");
  }

  /** A tab between two spaces: the validator counts three parts and keeps the
      line, but the middle part is white only and the parser refuses it. */
  lemma ParseExampleTabPart()
    ensures NameValidator.IsValidNameFormat("John \t Doe")
    ensures Parse(Some("John \t Doe")) == Err(InvalidPart)
    ensures !NameValidator.IsWellFormedName("John \t Doe")
  {
    var parts := ["John", "\t", "Doe"];
    assert Tokens("John \t Doe") == parts by {
      assert Join(parts) == "John \t Doe" by {
        assert Join(parts[1..]) == "\t Doe";
      }
      TokensOfJoin(parts);
    }
    assert AllWhite(parts[1]);
  }

  /** With the corrected check, a kept line is exactly a valid line that parses,
      and it parses to a record with one to three given names. */
  lemma WellFormedNameParses(name: string)
    ensures NameValidator.IsWellFormedName(name)
            <==> NameValidator.IsValidNameFormat(name) && Parse(Some(name)).Ok?
    ensures NameValidator.IsWellFormedName(name) ==> 1 <= |Parse(Some(name)).value.givenNames| <= 3
  {
    if NameValidator.IsValidNameFormat(name) {
      ParseValidatedName(name);
    }
  }
}
