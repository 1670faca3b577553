/** The structured name record produced by the parser and ordered by the sort strategy. */
module PersonNames {
  import opened Text

  /** `PersonName`: a last name and the given names that precede it, in order.
      The constructor stores both fields as given. */
  datatype PersonName = PersonName(lastName: string, givenNames: seq<string>)

  /** `PersonName.ToString()`: the given names joined by single spaces, one more
      space, the last name, and the whole trimmed. */
  function Render(p: PersonName): (s: string)
    ensures s == [] || (!IsWhite(s[0]) && !IsWhite(s[|s| - 1]))
    ensures IsCleanPart(p.lastName) ==> s != [] && s[|s| - 1] == p.lastName[|p.lastName| - 1]
  {
    var line := Join(p.givenNames) + " " + p.lastName;
    assert IsCleanPart(p.lastName) ==> Trim(line) != [] && Trim(line)[|Trim(line)| - 1] == line[|line| - 1] by {
      if IsCleanPart(p.lastName) {
        var n := |line| - 1;
        var t := Trim(line);
        assert line[n] == p.lastName[|p.lastName| - 1] && !IsWhite(line[n]);
        assert exists i, j :: TrimmedAt(line, i, j) && t == line[i..j];
        var i, j :| TrimmedAt(line, i, j) && t == line[i..j];
      }
    }
    Trim(line)
  }

  /** A non-empty part that holds no white character at all. */
  predicate IsCleanPart(t: string) {
    t != [] && forall i | 0 <= i < |t| :: !IsWhite(t[i])
  }

  /** Every field of `p` is a clean part. */
  predicate HasCleanParts(p: PersonName) {
    IsCleanPart(p.lastName) && forall k | 0 <= k < |p.givenNames| :: IsCleanPart(p.givenNames[k])
  }

  /** The parts of `p` in reading order: the given names, then the last name. */
  function Parts(p: PersonName): seq<string>
  {
    p.givenNames + [p.lastName]
  }

  /** With no given names, the rendering is the trimmed last name and has no leading space. */
  lemma RenderWithoutGivenNames(p: PersonName)
    requires p.givenNames == []
    ensures Render(p) == Trim(p.lastName)
  {
    assert Join(p.givenNames) + " " + p.lastName == " " + p.lastName;
    TrimLeadingSpace(p.lastName);
  }

  /** With clean parts, the rendering is the parts joined by single spaces, and
      splitting it on `' '` gives the parts back. */
  lemma RenderJoinsParts(p: PersonName)
    requires HasCleanParts(p)
    ensures Render(p) == Join(Parts(p))
    ensures SplitOnSpace(Render(p)) == Parts(p)
    ensures Tokens(Render(p)) == Parts(p)
  {
    var parts := Parts(p);
    forall k | 0 <= k < |parts|
      ensures IsCleanPart(parts[k]) && IsWord(parts[k])
    {
      if k < |p.givenNames| {
        assert parts[k] == p.givenNames[k];
      }
      assert IsWhite(' ');
    }
    if p.givenNames == [] {
      RenderWithoutGivenNames(p);
      assert parts == [p.lastName];
    } else {
      JoinSnoc(p.givenNames, p.lastName);
    }
    JoinBoundaries(parts);
    TrimUnchanged(Join(parts));
    SplitOnSpaceOfJoin(parts);
    TokensOfJoin(parts);
  }

  lemma RenderExample()
    ensures Render(PersonName("Doe", ["Jane"])) == "Jane Doe"
  {
    assert Join(["Jane"]) + " " + "Doe" == "Jane Doe";
    TrimUnchanged("Jane Doe");
  }
}
