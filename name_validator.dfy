/** `NameValidator`: keeps the raw lines that have two to four name parts. */
module NameValidator {
  import opened Outcomes
  import opened Text

  /** `IsValidNameFormat`: after trimming and splitting on `' '` (empty pieces
      dropped) the name has between two and four parts. */
  predicate IsValidNameFormat(name: string): (ok: bool)
    ensures AllWhite(name) ==> !ok
  {
    2 <= |Tokens(name)| <= 4
  }

  /** A valid name has a space inside its trimmed form: two parts need one between them. */
  lemma ValidNameHasInnerSpace(name: string)
    requires IsValidNameFormat(name)
    ensures ' ' in Trim(name)
  {
    if ' ' !in Trim(name) {
      SplitOnSpaceWithoutSpace(Trim(name));
    }
  }

  /** The check that the comment on `IsValidNameFormat` describes but its code
      leaves out: two to four parts, and no part made of white characters only. */
  predicate IsWellFormedName(name: string) {
    IsValidNameFormat(name) && forall k | 0 <= k < |Tokens(name)| :: !AllWhite(Tokens(name)[k])
  }

  /** `names.Where(keep)`: the lines that satisfy `keep`, in input order, unchanged. */
  function Where(names: seq<string>, keep: string -> bool): (kept: seq<string>)
    ensures |kept| <= |names|
    ensures forall k | 0 <= k < |kept| :: keep(kept[k])
  {
    if names == [] then []
    else (if keep(names[0]) then [names[0]] else []) + Where(names[1..], keep)
  }

  /** `ValidateNames`: a null list is refused; otherwise exactly the valid lines are kept. */
  function ValidateNames(names: Option<seq<string>>): (r: Result<seq<string>>)
    ensures names.None? ==> r == Err(ArgumentNull("names"))
    ensures names.Some? ==> r.Ok? && r.value == Where(names.value, IsValidNameFormat)
    ensures names.Some? ==> forall x :: x in r.value <==> x in names.value && IsValidNameFormat(x)
  {
    match names
    case None => Err(ArgumentNull("names"))
    case Some(ns) =>
      WhereMembers(ns, IsValidNameFormat);
      Ok(Where(ns, IsValidNameFormat))
  }

  /** A line is kept iff it is in the input and satisfies `keep`. */
  lemma {:induction false} WhereMembers(names: seq<string>, keep: string -> bool)
    ensures forall x :: x in Where(names, keep) <==> x in names && keep(x)
    decreases |names|
  {
    if names != [] {
      WhereMembers(names[1..], keep);
      assert names == [names[0]] + names[1..];
    }
  }

  /** Filtering distributes over concatenation: the kept lines keep their relative order. */
  lemma {:induction false} WhereAppend(a: seq<string>, b: seq<string>, keep: string -> bool)
    ensures Where(a + b, keep) == Where(a, keep) + Where(b, keep)
    decreases |a|
  {
    if a == [] {
      assert a + b == b;
    } else {
      assert (a + b)[0] == a[0] && (a + b)[1..] == a[1..] + b;
      WhereAppend(a[1..], b, keep);
    }
  }

  /** A list whose every line satisfies `keep` is returned as it is. */
  lemma {:induction false} WhereKeepsGoodList(names: seq<string>, keep: string -> bool)
    requires forall k | 0 <= k < |names| :: keep(names[k])
    ensures Where(names, keep) == names
    decreases |names|
  {
    if names != [] {
      WhereKeepsGoodList(names[1..], keep);
    }
  }

  /** Validating an already validated list changes nothing. */
  lemma ValidateNamesIdempotent(names: seq<string>)
    ensures var once := Where(names, IsValidNameFormat);
      ValidateNames(Some(once)) == Ok(once)
  {
    WhereKeepsGoodList(Where(names, IsValidNameFormat), IsValidNameFormat);
  }

  /** Nothing is dropped iff every line satisfies `keep`. */
  lemma {:induction false} WhereKeepsAllIff(names: seq<string>, keep: string -> bool)
    ensures |Where(names, keep)| == |names| <==> forall k | 0 <= k < |names| :: keep(names[k])
    decreases |names|
  {
    if names != [] {
      WhereKeepsAllIff(names[1..], keep);
      if !keep(names[0]) {
        assert |Where(names, keep)| < |names|;
      } else {
        assert forall k | 1 <= k < |names| :: names[k] == names[1..][k - 1];
      }
    }
  }

  /** The validity of a name written with single spaces is decided by its number of words. */
  lemma ValidityOfJoinedWords(ts: seq<string>, name: string)
    requires forall k | 0 <= k < |ts| :: IsWord(ts[k])
    requires ts != [] ==> ts[0] != [] && !IsWhite(ts[0][0])
    requires ts != [] ==> Last(ts) != [] && !IsWhite(Last(Last(ts)))
    requires name == Join(ts)
    ensures IsValidNameFormat(name) <==> 2 <= |ts| <= 4
  {
    TokensOfJoin(ts);
  }

  lemma TwoWordsValid()
    ensures IsValidNameFormat("John Doe")
  {
    assert Join(["John", "Doe"]) == "John Doe";
    ValidityOfJoinedWords(["John", "Doe"], "John Doe");
  }

  lemma OneWordInvalid()
    ensures !IsValidNameFormat("John")
  {
    ValidityOfJoinedWords(["John"], "John");
  }

  lemma FourWordsValid()
    ensures IsValidNameFormat("John Edward Martin Doe")
  {
    var ts := ["John", "Edward", "Martin", "Doe"];
    assert Join(ts) == "John Edward Martin Doe" by {
      assert Join(ts[2..]) == "Martin Doe";
    }
    ValidityOfJoinedWords(ts, "John Edward Martin Doe");
  }

  lemma FiveWordsInvalid()
    ensures !IsValidNameFormat("John Edward Martin Samuel Doe")
  {
    var ts := ["John", "Edward", "Martin", "Samuel", "Doe"];
    FiveWordsJoin();
    ValidityOfJoinedWords(ts, "John Edward Martin Samuel Doe");
  }

  lemma FiveWordsJoin()
    ensures Join(["John", "Edward", "Martin", "Samuel", "Doe"]) == "John Edward Martin Samuel Doe"
  {
    var ts := ["John", "Edward", "Martin", "Samuel", "Doe"];
    assert Join(ts[3..]) == "Samuel Doe";
    assert Join(ts[2..]) == "Martin Samuel Doe";
  }

  lemma BlankInvalid()
    ensures !IsValidNameFormat("  ") && !IsValidNameFormat("")
  {
    assert AllWhite("  ");
  }

  lemma ThreeWordsValid()
    ensures IsValidNameFormat("John Edward Doe")
  {
    var ts := ["John", "Edward", "Doe"];
    assert Join(ts) == "John Edward Doe" by {
      assert Join(ts[1..]) == "Edward Doe";
    }
    ValidityOfJoinedWords(ts, "John Edward Doe");
  }

  lemma OtherWordInvalid()
    ensures !IsValidNameFormat("Doe")
  {
    ValidityOfJoinedWords(["Doe"], "Doe");
  }

  /** Lines with one or five parts are dropped, lines with two to four parts kept, in order. */
  lemma ValidateNamesExampleFilters()
    ensures ValidateNames(Some(["John", "Doe", "John Doe", "John Edward Doe",
                                "John Edward Martin Doe", "John Edward Martin Samuel Doe"]))
         == Ok(["John Doe", "John Edward Doe", "John Edward Martin Doe"])
  {
    var names := ["John", "Doe", "John Doe", "John Edward Doe",
                  "John Edward Martin Doe", "John Edward Martin Samuel Doe"];
    var kept := ["John Doe", "John Edward Doe", "John Edward Martin Doe"];
    assert Where(names, IsValidNameFormat) == kept by {
      ExampleLinesValidity();
      WhereDropsEnds(names, IsValidNameFormat);
      assert names[2..5] == kept;
    }
  }

  lemma ExampleLinesValidity()
    ensures !IsValidNameFormat("John") && !IsValidNameFormat("Doe")
    ensures IsValidNameFormat("John Doe") && IsValidNameFormat("John Edward Doe")
    ensures IsValidNameFormat("John Edward Martin Doe")
    ensures !IsValidNameFormat("John Edward Martin Samuel Doe")
  {
    OneWordInvalid();
    OtherWordInvalid();
    TwoWordsValid();
    ThreeWordsValid();
    FourWordsValid();
    FiveWordsInvalid();
  }

  lemma WhereDropsEnds(names: seq<string>, keep: string -> bool)
    requires |names| == 6
    requires !keep(names[0]) && !keep(names[1]) && !keep(names[5])
    requires keep(names[2]) && keep(names[3]) && keep(names[4])
    ensures Where(names, keep) == names[2..5]
  {
    assert names == names[..2] + names[2..5] + names[5..];
    WhereAppend(names[..2] + names[2..5], names[5..], keep);
    WhereAppend(names[..2], names[2..5], keep);
    WhereKeepsGoodList(names[2..5], keep);
    assert Where(names[..2], keep) == [] by {
      assert names[..2][1..] == [names[1]];
    }
    assert Where(names[5..], keep) == [];
  }

  lemma SpacedTwoWordsValid()
    ensures IsValidNameFormat("John  Doe")
  {
    var s := "John  Doe";
    assert s == "John" + "  " + "Doe";
    TrimUnchanged(s);
    SplitOnSpaceOfSpacedWords("John", "  ", "Doe");
  }

  lemma PaddedThreeWordsValid()
    ensures IsValidNameFormat("  Jane    Mary   Smith  ")
  {
    PaddedThreeWordsTrim();
    PaddedThreeWordsSplit();
  }

  lemma PaddedThreeWordsTrim()
    ensures Trim("  Jane    Mary   Smith  ") == "Jane    Mary   Smith"
  {
    assert "  Jane    Mary   Smith  " == "  " + "Jane    Mary   Smith" + "  ";
    assert AllWhite("  ");
    TrimPadded("  ", "Jane    Mary   Smith", "  ");
  }

  lemma PaddedThreeWordsSplit()
    ensures SplitOnSpace("Jane    Mary   Smith") == ["Jane", "Mary", "Smith"]
  {
    PaddedThreeWordsSplitFirst();
    PaddedThreeWordsSplitRest();
  }

  lemma PaddedThreeWordsSplitFirst()
    ensures SplitOnSpace("Jane    Mary   Smith") == ["Jane"] + SplitOnSpace("Mary   Smith")
  {
    assert "Jane    Mary   Smith" == "Jane" + "    " + "Mary   Smith";
    SplitOnSpaceWordThenSpaces("Jane", "    ", "Mary   Smith");
  }

  lemma PaddedThreeWordsSplitRest()
    ensures SplitOnSpace("Mary   Smith") == ["Mary", "Smith"]
  {
    assert "Mary   Smith" == "Mary" + "   " + "Smith";
    SplitOnSpaceOfSpacedWords("Mary", "   ", "Smith");
  }

  /** Kept lines are returned verbatim, outer and inner extra spaces included. */
  lemma ValidateNamesExampleKeepsSpacing()
    ensures ValidateNames(Some(["John  Doe", "  Jane    Mary   Smith  "]))
         == Ok(["John  Doe", "  Jane    Mary   Smith  "])
  {
    SpacedTwoWordsValid();
    PaddedThreeWordsValid();
    WhereKeepsGoodList(["John  Doe", "  Jane    Mary   Smith  "], IsValidNameFormat);
  }
}
