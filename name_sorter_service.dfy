/** The name-sorting service: the validate-then-sort pipeline behind the
    application. `SortNamesAsync` is modelled without its task wrapper; a
    cancellation request is a boolean read once, where the method checks its token. */
module NameSorterService {
  import opened Outcomes
  import opened PersonNames

  /** A service with its validator and sorter. */
  datatype Service = Service(validator: seq<string> -> Result<seq<string>>,
                             sorter: seq<string> -> Result<seq<PersonName>>)

  /** The constructor: a null validator is refused first, then a null sorter. */
  function Create(nameValidator: Option<seq<string> -> Result<seq<string>>>,
                  nameSorter: Option<seq<string> -> Result<seq<PersonName>>>): (r: Result<Service>)
    ensures nameValidator.None? ==> r == Err(ArgumentNull("nameValidator"))
    ensures nameValidator.Some? && nameSorter.None? ==> r == Err(ArgumentNull("nameSorter"))
    ensures r.Ok? <==> nameValidator.Some? && nameSorter.Some?
    ensures r.Ok? ==> (r.value.validator == nameValidator.value && r.value.sorter == nameSorter.value)
  {
    if nameValidator.None? then Err(ArgumentNull("nameValidator"))
    else if nameSorter.None? then Err(ArgumentNull("nameSorter"))
    else Ok(Service(nameValidator.value, nameSorter.value))
  }

  /** The pipeline. A null list is refused. An empty list gives an empty result
      straight away, even when cancellation was requested. Otherwise a requested
      cancellation aborts before validation; the validator is applied once to the
      input; no valid line gives an empty result without sorting; and otherwise the
      sorter's outcome on the valid lines is the result. */
  function SortNamesAsync(svc: Service, unsortedNames: Option<seq<string>>, cancellationRequested: bool)
    : (r: Result<seq<PersonName>>)
    ensures unsortedNames.None? ==> r == Err(ArgumentNull("unsortedNames"))
    ensures unsortedNames == Some([]) ==> r == Ok([])
    ensures unsortedNames.Some? && unsortedNames.value != [] && cancellationRequested ==> r == Err(Canceled)
    ensures unsortedNames.Some? && unsortedNames.value != [] && !cancellationRequested ==>
              match svc.validator(unsortedNames.value)
              case Err(e) => r == Err(e)
              case Ok(valid) => r == (if valid == [] then Ok([]) else svc.sorter(valid))
  {
    match unsortedNames
    case None => Err(ArgumentNull("unsortedNames"))
    case Some(names) =>
      if names == [] then Ok([])
      else if cancellationRequested then Err(Canceled)
      else
        match svc.validator(names)
        case Err(e) => Err(e)
        case Ok(valid) => if valid == [] then Ok([]) else svc.sorter(valid)
  }
}
