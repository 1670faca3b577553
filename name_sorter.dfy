/** The name sorter: parses every line with its parser, then hands the whole
    parsed list to its sort strategy. Both collaborators are injected; here they
    are functions, and an exception either of them raises is an `Err`. */
module NameSorter {
  import opened Outcomes
  import opened PersonNames

  /** A sorter with its strategy and parser. */
  datatype Sorter = Sorter(strategy: seq<PersonName> -> Result<seq<PersonName>>,
                           parser: string -> Result<PersonName>)

  /** The constructor: a null strategy is refused first, then a null parser. */
  function Create(sortStrategy: Option<seq<PersonName> -> Result<seq<PersonName>>>,
                  nameParser: Option<string -> Result<PersonName>>): (r: Result<Sorter>)
    ensures sortStrategy.None? ==> r == Err(ArgumentNull("sortStrategy"))
    ensures sortStrategy.Some? && nameParser.None? ==> r == Err(ArgumentNull("nameParser"))
    ensures r.Ok? <==> sortStrategy.Some? && nameParser.Some?
    ensures r.Ok? ==> (r.value.strategy == sortStrategy.value && r.value.parser == nameParser.value)
  {
    if sortStrategy.None? then Err(ArgumentNull("sortStrategy"))
    else if nameParser.None? then Err(ArgumentNull("nameParser"))
    else Ok(Sorter(sortStrategy.value, nameParser.value))
  }

  /** Every line parses, in order. */
  predicate AllParse(parser: string -> Result<PersonName>, names: seq<string>) {
    forall i | 0 <= i < |names| :: parser(names[i]).Ok?
  }

  /** The first line that does not parse. */
  predicate FirstFailureAt(parser: string -> Result<PersonName>, names: seq<string>, i: int) {
    0 <= i < |names| && parser(names[i]).Err?
    && forall j | 0 <= j < i :: parser(names[j]).Ok?
  }

  /** `names.Select(Parse).ToList()`: each line is parsed once, in order; the
      first failure aborts the whole list with that line's error. */
  function ParseAll(parser: string -> Result<PersonName>, names: seq<string>): (r: Result<seq<PersonName>>)
    ensures r.Ok? <==> AllParse(parser, names)
    ensures r.Ok? ==> |r.value| == |names|
                      && forall i | 0 <= i < |names| :: parser(names[i]) == Ok(r.value[i])
    ensures r.Err? ==> exists i :: FirstFailureAt(parser, names, i)
                                   && r.error == parser(names[i]).error
  {
    if names == [] then Ok([])
    else match parser(names[0])
      case Err(e) =>
        assert FirstFailureAt(parser, names, 0);
        Err(e)
      case Ok(p) =>
        match ParseAll(parser, names[1..])
        case Err(e) =>
          var i :| FirstFailureAt(parser, names[1..], i) && e == parser(names[1..][i]).error;
          assert FirstFailureAt(parser, names, i + 1);
          Err(e)
        case Ok(ps) =>
          assert forall i | 1 <= i < |names| :: names[i] == names[1..][i - 1];
          Ok([p] + ps)
  }

  /** A line that does not parse makes the whole list fail, with the error of the
      earliest such line: no line is skipped. */
  lemma ParseAllFailsAtFirstError(parser: string -> Result<PersonName>, names: seq<string>, i: int)
    requires FirstFailureAt(parser, names, i)
    ensures ParseAll(parser, names) == Err(parser(names[i]).error)
  {
  }

  /** `Sort`: a null list is refused; a line that fails to parse fails the call;
      otherwise the strategy is applied once, to the parsed lines in input order,
      and its outcome is the result. */
  function Sort(sorter: Sorter, names: Option<seq<string>>): (r: Result<seq<PersonName>>)
    ensures names.None? ==> r == Err(ArgumentNull("names"))
    ensures names.Some? && !AllParse(sorter.parser, names.value) ==>
              exists i :: FirstFailureAt(sorter.parser, names.value, i)
                          && r == Err(sorter.parser(names.value[i]).error)
    ensures names.Some? && AllParse(sorter.parser, names.value) ==>
              exists parsed: seq<PersonName> ::
                |parsed| == |names.value|
                && (forall i | 0 <= i < |parsed| :: sorter.parser(names.value[i]) == Ok(parsed[i]))
                && r == sorter.strategy(parsed)
  {
    match names
    case None => Err(ArgumentNull("names"))
    case Some(lines) =>
      match ParseAll(sorter.parser, lines)
      case Err(e) => Err(e)
      case Ok(parsed) => sorter.strategy(parsed)
  }
}
