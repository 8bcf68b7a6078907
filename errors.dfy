/** Outcomes of the ingestion pipeline: a value, or the Python exception that
    the script lets escape. */
module Errors {

  /** The exceptions the ingestion code can raise on its input. */
  datatype PyError =
    | IndexError      // indexing a list that has no line containing "Reply from"
    | AttributeError  // re.search found no "time=" and returned None
    | ValueError      // int("") or strptime rejecting the timestamp text
    | KeyError        // describing a column the table does not have

  datatype Option<+T> = None | Some(value: T)

  datatype Result<+T> = Ok(value: T) | Err(error: PyError)

  /** The list comprehension `[f(x) for x in xs]`: elements are evaluated left
      to right and the first one that raises aborts the whole list. */
  function MapAll<T>(xs: seq<string>, f: string -> Result<T>): (r: Result<seq<T>>)
    ensures r.Ok? <==> forall k :: 0 <= k < |xs| ==> f(xs[k]).Ok?
    ensures r.Ok? ==> |r.value| == |xs| && forall k :: 0 <= k < |xs| ==> f(xs[k]) == Ok(r.value[k])
    ensures r.Err? ==>
      exists k :: 0 <= k < |xs| && f(xs[k]) == Err(r.error) && forall j :: 0 <= j < k ==> f(xs[j]).Ok?
  {
    if xs == [] then Ok([])
    else match f(xs[0])
      case Err(e) => Err(e)
      case Ok(v) =>
        match MapAll(xs[1..], f)
        case Err(e) =>
          assert forall k :: 1 <= k < |xs| ==> xs[1..][k - 1] == xs[k];
          Err(e)
        case Ok(vs) =>
          assert forall k :: 1 <= k < |xs| ==> xs[1..][k - 1] == xs[k];
          Ok([v] + vs)
  }
}
