/** One row of a sparse contact dump: a row bin, a column bin and the contact
    value between them.

    Contact values are floating-point numbers that the model never computes
    with; they are the type parameter `V`, and the conversion `float(text)` is
    the parameter `parseFloat` (`None` where Python raises `ValueError`). */
module Contacts {
  import opened Results
  import opened Strings
  import opened Records

  datatype Contact<V> = Contact(row: int, col: int, value: V)

  /** The contact joins bins `a` and `b`, in either orientation. */
  predicate Joins<V>(c: Contact<V>, a: int, b: int) {
    (c.row == a && c.col == b) || (c.row == b && c.col == a)
  }

  /** `int(row[0]), int(row[1]), float(row[2])`, evaluated left to right, so
      the first missing or unreadable field is the one reported. Fields after
      the third are ignored. */
  function ParseContact<V>(fields: seq<string>, index: nat, parseFloat: string -> Option<V>)
    : (r: Result<Contact<V>>)
    ensures r.Ok? <==> |fields| >= 3 && ParseInt(fields[0]).Some? && ParseInt(fields[1]).Some?
                       && parseFloat(fields[2]).Some?
    ensures r.Ok? ==>
      r.value == Contact(ParseInt(fields[0]).value, ParseInt(fields[1]).value, parseFloat(fields[2]).value)
    ensures |fields| == 0 ==> r == Err(MissingField(index, 0))
  {
    var rowId :- IntField(fields, 0, index);
    var colId :- IntField(fields, 1, index);
    if |fields| < 3 then Err(MissingField(index, 2))
    else match parseFloat(fields[2])
      case None => Err(NotANumber(index, 2, fields[2]))
      case Some(v) => Ok(Contact(rowId, colId, v))
  }

  /** All rows of a dump, or the error of the first malformed row. */
  function ParseContacts<V>(rows: seq<seq<string>>, parseFloat: string -> Option<V>)
    : (r: Result<seq<Contact<V>>>)
    ensures r.Ok? <==> forall k :: 0 <= k < |rows| ==> ParseContact(rows[k], k, parseFloat).Ok?
    ensures r.Ok? ==> (|r.value| == |rows|
                         && forall k :: 0 <= k < |rows| ==> r.value[k] == ParseContact(rows[k], k, parseFloat).value)
  {
    ParseRows(rows, (fields, k) => ParseContact(fields, k, parseFloat))
  }

  /** Reference definition: the value of the last contact joining `a` and `b`
      in either orientation, or `None` if no contact joins them. */
  function LastValue<V>(data: seq<Contact<V>>, a: int, b: int): (r: Option<V>)
    ensures r.Some? <==> exists k :: 0 <= k < |data| && Joins(data[k], a, b)
    ensures r.Some? ==> (exists k :: 0 <= k < |data| && Joins(data[k], a, b) && data[k].value == r.value
                           && forall j :: k < j < |data| ==> !Joins(data[j], a, b))
    decreases |data|
  {
    if |data| == 0 then None
    else
      var last := data[|data| - 1];
      var init := data[..|data| - 1];
      if Joins(last, a, b) then Some(last.value)
      else
        var r := LastValue(init, a, b);
        assert forall k :: 0 <= k < |init| ==> init[k] == data[k];
        r
  }

  /** The joining pair does not depend on orientation. */
  lemma LastValueSymmetric<V>(data: seq<Contact<V>>, a: int, b: int)
    ensures LastValue(data, a, b) == LastValue(data, b, a)
  {
  }
}
