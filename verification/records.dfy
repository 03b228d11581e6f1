/** Reading tab-separated rows, each already split into its fields.

    The scripts convert every row inside one loop, so the first row that
    raises aborts the whole read and nothing read so far is returned. */
module Records {
  import opened Results
  import opened Strings

  /** `int(fields[i])` of row number `row`. */
  function IntField(fields: seq<string>, i: nat, row: nat): (r: Result<int>)
    ensures r.Ok? <==> i < |fields| && ParseInt(fields[i]).Some?
    ensures r.Ok? ==> r.value == ParseInt(fields[i]).value
    ensures i >= |fields| ==> r == Err(MissingField(row, i))
  {
    if i >= |fields| then Err(MissingField(row, i))
    else match ParseInt(fields[i])
      case None => Err(NotANumber(row, i, fields[i]))
      case Some(n) => Ok(n)
  }

  /** Converts `rows[from..]` in order with `parse` (given each row and its
      number), stopping at the first row `parse` rejects. */
  function ParseRowsFrom<T>(rows: seq<seq<string>>, from: nat, parse: (seq<string>, nat) -> Result<T>)
    : (r: Result<seq<T>>)
    requires from <= |rows|
    ensures r.Ok? <==> forall k :: from <= k < |rows| ==> parse(rows[k], k).Ok?
    ensures r.Ok? ==> |r.value| == |rows| - from
    ensures r.Ok? ==> forall k :: from <= k < |rows| ==> r.value[k - from] == parse(rows[k], k).value
    ensures r.Err? ==> (exists k :: from <= k < |rows| && parse(rows[k], k).Err?
                          && r == Err(parse(rows[k], k).error)
                          && forall j :: from <= j < k ==> parse(rows[j], j).Ok?)
    decreases |rows| - from
  {
    if from == |rows| then Ok([])
    else match parse(rows[from], from)
      case Err(e) => Err(e)
      case Ok(x) =>
        match ParseRowsFrom(rows, from + 1, parse)
        case Err(e) => Err(e)
        case Ok(xs) => Ok([x] + xs)
  }

  /** Converts every row, or reports the first row that cannot be converted. */
  function ParseRows<T>(rows: seq<seq<string>>, parse: (seq<string>, nat) -> Result<T>): (r: Result<seq<T>>)
    ensures r.Ok? <==> forall k :: 0 <= k < |rows| ==> parse(rows[k], k).Ok?
    ensures r.Ok? ==> |r.value| == |rows| && forall k :: 0 <= k < |rows| ==> r.value[k] == parse(rows[k], k).value
    ensures r.Err? ==> (exists k :: 0 <= k < |rows| && parse(rows[k], k).Err?
                          && r == Err(parse(rows[k], k).error)
                          && forall j :: 0 <= j < k ==> parse(rows[j], j).Ok?)
  {
    ParseRowsFrom(rows, 0, parse)
  }
}
