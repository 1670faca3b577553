/** The application's wiring: the concrete validator, parser, sort strategy,
    sorter and service, and what the assembled pipeline guarantees end to end. */
module HostConfiguration {
  import opened Outcomes
  import opened Text
  import opened PersonNames
  import NameValidator
  import NameParser
  import LinqSortStrategy
  import NameSorter
  import NameSorterService

  /** `name => name.LastName` */
  function LastNameKey(p: PersonName): (k: string)
    ensures k == Last(Parts(p))
  {
    p.lastName
  }

  /** `name => string.Join(" ", name.GivenNames)`: for space-free given names the
      key splits back into them, so two such records share a key only when they
      share their given names. */
  function GivenNamesKey(p: PersonName): (k: string)
    ensures (forall i | 0 <= i < |p.givenNames| :: IsWord(p.givenNames[i])) ==> SplitOnSpace(k) == p.givenNames
  {
    assert (forall i | 0 <= i < |p.givenNames| :: IsWord(p.givenNames[i])) ==> SplitOnSpace(Join(p.givenNames)) == p.givenNames by {
      if forall i | 0 <= i < |p.givenNames| :: IsWord(p.givenNames[i]) {
        SplitOnSpaceOfJoin(p.givenNames);
      }
    }
    Join(p.givenNames)
  }

  /** The registered strategy: by last name, then by the joined given names. */
  const NameSortStrategy: LinqSortStrategy.Strategy<PersonName> :=
    LinqSortStrategy.Create(Some(LastNameKey), Some(GivenNamesKey)).value

  function SortStrategy(records: seq<PersonName>): Result<seq<PersonName>> {
    LinqSortStrategy.Sort(NameSortStrategy, Some(records))
  }

  function Parser(line: string): Result<PersonName> {
    NameParser.Parse(Some(line))
  }

  const Sorter: NameSorter.Sorter := NameSorter.Create(Some(SortStrategy), Some(Parser)).value

  function SortLines(lines: seq<string>): Result<seq<PersonName>> {
    NameSorter.Sort(Sorter, Some(lines))
  }

  function Validator(lines: seq<string>): Result<seq<string>> {
    NameValidator.ValidateNames(Some(lines))
  }

  const Service: NameSorterService.Service := NameSorterService.Create(Some(Validator), Some(SortLines)).value

  /** The lines the validator keeps. */
  function ValidLines(lines: seq<string>): seq<string> {
    NameValidator.Where(lines, NameValidator.IsValidNameFormat)
  }

  /** `records` are the parses of `lines`, position by position. */
  predicate ParsesOf(records: seq<PersonName>, lines: seq<string>) {
    |records| == |lines|
    && forall i | 0 <= i < |lines| :: NameParser.Parse(Some(lines[i])) == Ok(records[i])
  }

  /** `record` is what one of `lines` parses to. */
  predicate ParsedFromOneOf(record: PersonName, lines: seq<string>) {
    exists i | 0 <= i < |lines| :: Parser(lines[i]) == Ok(record)
  }

  /** `records` in the order the application writes them: sorted by last name and
      then given names, a permutation of `parsed`, equal names in input order. */
  ghost predicate OrderedFrom(records: seq<PersonName>, parsed: seq<PersonName>) {
    LinqSortStrategy.Sorted(NameSortStrategy, records)
    && multiset(records) == multiset(parsed)
    && LinqSortStrategy.Stable(NameSortStrategy, records, parsed)
  }

  // ---------------------------------------------------------------------------
  // The key order of the concrete strategy

  /** Records are ordered by last name first, and by their joined given names
      among equal last names. */
  lemma NameOrder(x: PersonName, y: PersonName)
    ensures LinqSortStrategy.KeyLe(NameSortStrategy, x, y) <==>
            if x.lastName != y.lastName then LexLe(x.lastName, y.lastName)
            else LexLe(Join(x.givenNames), Join(y.givenNames))
  {
  }

  // ---------------------------------------------------------------------------
  // End to end, as written

  /** A line the validator kept fails to parse only with the invalid-part error,
      and exactly when one of its parts is white only. */
  lemma ParseKeptLines(lines: seq<string>)
    ensures forall i | 0 <= i < |ValidLines(lines)| ::
              var r := Parser(ValidLines(lines)[i]);
              (r.Ok? || r == Err(InvalidPart))
              && (r.Ok? <==> !NameParser.HasWhitePart(Tokens(ValidLines(lines)[i])))
              && (r.Ok? ==> 1 <= |r.value.givenNames| <= 3)
  {
    var valid := ValidLines(lines);
    forall i | 0 <= i < |valid|
      ensures var r := Parser(valid[i]);
              (r.Ok? || r == Err(InvalidPart))
              && (r.Ok? <==> !NameParser.HasWhitePart(Tokens(valid[i])))
              && (r.Ok? ==> 1 <= |r.value.givenNames| <= 3)
    {
      NameParser.ParseValidatedName(valid[i]);
    }
  }

  /** The service hands the kept lines to the sorter, or answers an empty list
      when there are none. */
  lemma ServiceSortsKeptLines(svc: NameSorterService.Service, keep: string -> bool, lines: seq<string>)
    requires forall ls :: svc.validator(ls) == Ok(NameValidator.Where(ls, keep))
    requires forall ls :: svc.sorter(ls) == SortLines(ls)
    ensures var r := NameSorterService.SortNamesAsync(svc, Some(lines), false);
      r == if NameValidator.Where(lines, keep) == [] then Ok([])
           else NameSorter.Sort(Sorter, Some(NameValidator.Where(lines, keep)))
  {
    if lines == [] {
      assert NameValidator.Where(lines, keep) == [];
    }
  }

  /** The registered strategy always succeeds and puts records in name order. */
  lemma StrategyOrders(records: seq<PersonName>)
    ensures SortStrategy(records).Ok? && OrderedFrom(SortStrategy(records).value, records)
  {
  }

  /** The sorter on lines whose parses fail only with the invalid-part error:
      it fails exactly when one of them does, and otherwise orders their parses. */
  lemma SorterOnParsableLines(valid: seq<string>)
    requires forall i | 0 <= i < |valid| :: Parser(valid[i]).Ok? || Parser(valid[i]) == Err(InvalidPart)
    ensures var r := NameSorter.Sort(Sorter, Some(valid));
      (r.Err? <==> exists i | 0 <= i < |valid| :: Parser(valid[i]).Err?)
      && (r.Err? ==> r.error == InvalidPart)
      && (r.Ok? ==> exists parsed :: ParsesOf(parsed, valid) && OrderedFrom(r.value, parsed))
  {
    var r := NameSorter.Sort(Sorter, Some(valid));
    if NameSorter.AllParse(Parser, valid) {
      var parsed: seq<PersonName> :|
        |parsed| == |valid|
        && (forall i | 0 <= i < |parsed| :: Parser(valid[i]) == Ok(parsed[i]))
        && r == SortStrategy(parsed);
      StrategyOrders(parsed);
      assert ParsesOf(parsed, valid);
    } else {
      var i :| NameSorter.FirstFailureAt(Parser, valid, i) && r == Err(Parser(valid[i]).error);
    }
  }

  /** The whole pipeline on a non-null list with no cancellation: it fails, with
      the invalid-part error, exactly when some kept line has a white-only part;
      otherwise it returns the parses of the kept lines, ordered by last name and
      given names, equal names in input order. */
  lemma SortNamesEndToEnd(lines: seq<string>)
    ensures var r := NameSorterService.SortNamesAsync(Service, Some(lines), false);
      (r.Err? <==> exists i | 0 <= i < |ValidLines(lines)| :: NameParser.HasWhitePart(Tokens(ValidLines(lines)[i])))
      && (r.Err? ==> r.error == InvalidPart)
      && (r.Ok? ==> exists parsed :: ParsesOf(parsed, ValidLines(lines)) && OrderedFrom(r.value, parsed))
  {
    var valid := ValidLines(lines);
    ServiceSortsKeptLines(Service, NameValidator.IsValidNameFormat, lines);
    ParseKeptLines(lines);
    if valid == [] {
      assert ParsesOf([], valid) && OrderedFrom([], []);
    } else {
      SorterOnParsableLines(valid);
    }
  }

  /** Every record the pipeline returns has one to three given names and comes
      from a kept line. */
  lemma SortNamesGivenNameCount(lines: seq<string>)
    ensures var r := NameSorterService.SortNamesAsync(Service, Some(lines), false);
      r.Ok? ==> forall k | 0 <= k < |r.value| ::
                  1 <= |r.value[k].givenNames| <= 3
                  && ParsedFromOneOf(r.value[k], ValidLines(lines))
  {
    var r := NameSorterService.SortNamesAsync(Service, Some(lines), false);
    SortNamesEndToEnd(lines);
    if r.Ok? {
      var valid := ValidLines(lines);
      var parsed :| ParsesOf(parsed, valid) && OrderedFrom(r.value, parsed);
      ParseKeptLines(lines);
      RecordsOfParses(r.value, parsed, valid);
    }
  }

  /** A rearrangement of the parses of some lines holds only records parsed from
      those lines, each with one to three given names when every parse has them. */
  lemma RecordsOfParses(records: seq<PersonName>, parsed: seq<PersonName>, lines: seq<string>)
    requires ParsesOf(parsed, lines) && multiset(records) == multiset(parsed)
    requires forall i | 0 <= i < |lines| :: Parser(lines[i]).Ok? ==> 1 <= |Parser(lines[i]).value.givenNames| <= 3
    ensures forall k | 0 <= k < |records| :: 1 <= |records[k].givenNames| <= 3
    ensures forall k | 0 <= k < |records| :: ParsedFromOneOf(records[k], lines)
  {
    forall k | 0 <= k < |records|
      ensures 1 <= |records[k].givenNames| <= 3
      ensures ParsedFromOneOf(records[k], lines)
    {
      assert records[k] in multiset(parsed);
      var i :| 0 <= i < |parsed| && parsed[i] == records[k];
      assert 0 <= i < |lines| && Parser(lines[i]) == Ok(records[k]);
    }
  }

  /** Cancellation is ignored for an empty list and honoured for any other. */
  lemma SortNamesCancellation(lines: seq<string>)
    ensures NameSorterService.SortNamesAsync(Service, Some(lines), true)
            == if lines == [] then Ok([]) else Err(Canceled)
  {
  }

  // ---------------------------------------------------------------------------
  // Examples from the tests

  lemma JoinOne(s: string)
    ensures Join([s]) == s
  {
  }

  lemma DoeSmithOrder()
    ensures LexLe("Doe", "Smith")
    ensures !LexLe("Smith", "Doe")
  {
  }

  lemma JaneJohnOrder()
    ensures LexLe("Jane", "John")
    ensures !LexLe("John", "Jane")
  {
    assert "Jane"[1..] == "ane" && "John"[1..] == "ohn";
  }

  lemma AmyZoeOrder()
    ensures LexLe("Amy", "Zoe")
    ensures !LexLe("Zoe", "Amy")
  {
  }

  /** Doe/John, Smith/Jane, Doe/Jane sort to Doe/Jane, Doe/John, Smith/Jane. */
  lemma SortExampleLastThenGiven()
    ensures SortStrategy([PersonName("Doe", ["John"]), PersonName("Smith", ["Jane"]), PersonName("Doe", ["Jane"])])
         == Ok([PersonName("Doe", ["Jane"]), PersonName("Doe", ["John"]), PersonName("Smith", ["Jane"])])
  {
    var dj, sj, dn := PersonName("Doe", ["John"]), PersonName("Smith", ["Jane"]), PersonName("Doe", ["Jane"]);
    var st := NameSortStrategy;
    JoinOne("John");
    JoinOne("Jane");
    DoeSmithOrder();
    JaneJohnOrder();
    NameOrder(sj, dn);
    NameOrder(dj, dn);
    NameOrder(dj, sj);
    assert LinqSortStrategy.StableSort(st, [dn]) == [dn] by {
      assert [dn][1..] == [];
    }
    assert LinqSortStrategy.Insert(st, sj, [dn]) == [dn, sj] by {
      assert !LinqSortStrategy.KeyLe(st, sj, dn);
      assert [dn][1..] == [];
      assert LinqSortStrategy.Insert(st, sj, []) == [sj];
    }
    assert LinqSortStrategy.StableSort(st, [sj, dn]) == [dn, sj] by {
      assert [sj, dn][1..] == [dn];
    }
    assert LinqSortStrategy.Insert(st, dj, [dn, sj]) == [dn, dj, sj] by {
      assert !LinqSortStrategy.KeyLe(st, dj, dn);
      assert [dn, sj][1..] == [sj];
      assert LinqSortStrategy.KeyLe(st, dj, sj);
    }
    assert LinqSortStrategy.StableSort(st, [dj, sj, dn]) == [dn, dj, sj] by {
      assert [dj, sj, dn][1..] == [sj, dn];
    }
  }

  /** Two Smiths are ordered by given name: Amy before Zoe. */
  lemma SortExampleSameLastName()
    ensures SortStrategy([PersonName("Smith", ["Zoe"]), PersonName("Smith", ["Amy"])])
         == Ok([PersonName("Smith", ["Amy"]), PersonName("Smith", ["Zoe"])])
  {
    var z, a := PersonName("Smith", ["Zoe"]), PersonName("Smith", ["Amy"]);
    JoinOne("Zoe");
    JoinOne("Amy");
    AmyZoeOrder();
    NameOrder(z, a);
    var st := NameSortStrategy;
    assert !LinqSortStrategy.KeyLe(st, z, a);
    assert LinqSortStrategy.StableSort(st, [a]) == [a] by {
      assert [a][1..] == [];
    }
    assert LinqSortStrategy.Insert(st, z, [a]) == [a, z] by {
      assert [a][1..] == [];
      assert LinqSortStrategy.Insert(st, z, []) == [z];
    }
    assert LinqSortStrategy.StableSort(st, [z, a]) == [a, z] by {
      assert [z, a][1..] == [a];
    }
  }

  /** A tab between spaces makes the line count as three parts for the validator
      but fail the parser, so the whole batch fails. */
  lemma SortNamesExampleTabFailsBatch()
    ensures NameSorterService.SortNamesAsync(Service, Some(["Jane Doe", "John \t Doe"]), false)
         == Err(InvalidPart)
  {
    var lines := ["Jane Doe", "John \t Doe"];
    NameParser.ParseExampleTabPart();
    SortNamesEndToEnd(lines);
    NameValidator.WhereMembers(lines, NameValidator.IsValidNameFormat);
    var valid := ValidLines(lines);
    assert "John \t Doe" in valid;
    var i :| 0 <= i < |valid| && valid[i] == "John \t Doe";
    assert NameParser.HasWhitePart(Tokens(valid[i])) by {
      NameParser.ParseSucceedsIff(valid[i]);
    }
  }

  // ---------------------------------------------------------------------------
  // Corrected: the validator also drops lines with a white-only part

  function WellFormedValidator(lines: seq<string>): Result<seq<string>> {
    Ok(NameValidator.Where(lines, NameValidator.IsWellFormedName))
  }

  const CorrectedService: NameSorterService.Service :=
    NameSorterService.Create(Some(WellFormedValidator), Some(SortLines)).value

  /** With the corrected validator the pipeline never fails on a non-null list
      without cancellation: every kept line parses, and the result is the kept
      lines' parses in name order, each with one to three given names. */
  lemma CorrectedSortNamesNeverFails(lines: seq<string>)
    ensures var r := NameSorterService.SortNamesAsync(CorrectedService, Some(lines), false);
      r.Ok?
      && (exists parsed :: ParsesOf(parsed, NameValidator.Where(lines, NameValidator.IsWellFormedName))
                           && OrderedFrom(r.value, parsed))
      && forall k | 0 <= k < |r.value| :: 1 <= |r.value[k].givenNames| <= 3
  {
    var r := NameSorterService.SortNamesAsync(CorrectedService, Some(lines), false);
    var valid := NameValidator.Where(lines, NameValidator.IsWellFormedName);
    ServiceSortsKeptLines(CorrectedService, NameValidator.IsWellFormedName, lines);
    forall i | 0 <= i < |valid|
      ensures Parser(valid[i]).Ok? && 1 <= |Parser(valid[i]).value.givenNames| <= 3
    {
      NameParser.WellFormedNameParses(valid[i]);
    }
    if valid == [] {
      assert ParsesOf([], valid) && OrderedFrom([], []);
    } else {
      SorterOnParsableLines(valid);
      var parsed :| ParsesOf(parsed, valid) && OrderedFrom(r.value, parsed);
      RecordsOfParses(r.value, parsed, valid);
    }
  }

  /** The corrected pipeline drops the tab line and sorts the rest. */
  lemma CorrectedSortNamesExampleTab()
    ensures NameSorterService.SortNamesAsync(CorrectedService, Some(["Jane Doe", "John \t Doe"]), false).Ok?
  {
    CorrectedSortNamesNeverFails(["Jane Doe", "John \t Doe"]);
  }
}
