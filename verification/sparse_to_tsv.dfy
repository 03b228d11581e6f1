/** Turning a sparse contact dump into a dense, labelled matrix
    (`read_hic_export`): the scan of the coordinate extents, the inference of
    the bin size, the adjustment of the axis ranges, the axis labels and the
    symmetric fill of the cells. */
module SparseToTsv {
  import opened Results
  import opened Contacts
  import FragMatrix

  // ---------------------------------------------------------------------------
  // extents

  /** The values the running maximum and minimum start from. */
  const NoMax: int := -1
  const NoMin: int := 100000000000

  datatype Extents = Extents(rowMin: int, rowMax: int, colMin: int, colMax: int)

  function RowIds<V>(data: seq<Contact<V>>): (ids: seq<int>)
    ensures |ids| == |data| && forall k :: 0 <= k < |data| ==> ids[k] == data[k].row
  {
    seq(|data|, k requires 0 <= k < |data| => data[k].row)
  }

  function ColIds<V>(data: seq<Contact<V>>): (ids: seq<int>)
    ensures |ids| == |data| && forall k :: 0 <= k < |data| ==> ids[k] == data[k].col
  {
    seq(|data|, k requires 0 <= k < |data| => data[k].col)
  }

  /** `m` is the running maximum of `xs` started from `start`. */
  ghost predicate IsMaxFrom(m: int, start: int, xs: seq<int>) {
    start <= m && (forall x :: x in xs ==> x <= m) && (m == start || m in xs)
  }

  /** `m` is the running minimum of `xs` started from `start`. */
  ghost predicate IsMinFrom(m: int, start: int, xs: seq<int>) {
    m <= start && (forall x :: x in xs ==> m <= x) && (m == start || m in xs)
  }

  /** One pass of the reading loop over one contact. */
  function Observe<V>(e: Extents, c: Contact<V>): Extents {
    Extents(
      if c.row < e.rowMin then c.row else e.rowMin,
      if c.row > e.rowMax then c.row else e.rowMax,
      if c.col < e.colMin then c.col else e.colMin,
      if c.col > e.colMax then c.col else e.colMax)
  }

  /** The extents tracked by the reading loop over all contacts: each bound is
      the running extreme of its coordinate, started from the sentinel. */
  function Scan<V>(data: seq<Contact<V>>): (e: Extents)
    ensures IsMaxFrom(e.rowMax, NoMax, RowIds(data)) && IsMinFrom(e.rowMin, NoMin, RowIds(data))
    ensures IsMaxFrom(e.colMax, NoMax, ColIds(data)) && IsMinFrom(e.colMin, NoMin, ColIds(data))
    decreases |data|
  {
    if |data| == 0 then Extents(NoMin, NoMax, NoMin, NoMax)
    else
      var init := data[..|data| - 1];
      assert RowIds(data) == RowIds(init) + [data[|data| - 1].row];
      assert ColIds(data) == ColIds(init) + [data[|data| - 1].col];
      Observe(Scan(init), data[|data| - 1])
  }

  /** For a non-empty dump whose coordinates lie in `[0, 10^11)` the
      sentinels never survive: the tracked bounds are the true extremes,
      each attained by some contact. */
  lemma ScanIsExact<V>(data: seq<Contact<V>>)
    requires |data| > 0
    requires forall k :: 0 <= k < |data| ==> 0 <= data[k].row < NoMin && 0 <= data[k].col < NoMin
    ensures var e := Scan(data);
      && e.rowMax in RowIds(data) && e.rowMin in RowIds(data)
      && e.colMax in ColIds(data) && e.colMin in ColIds(data)
      && (forall k :: 0 <= k < |data| ==> e.rowMin <= data[k].row <= e.rowMax)
      && (forall k :: 0 <= k < |data| ==> e.colMin <= data[k].col <= e.colMax)
  {
    var e := Scan(data);
    assert RowIds(data)[0] in RowIds(data) && ColIds(data)[0] in ColIds(data);
    assert forall k :: 0 <= k < |data| ==> data[k].row in RowIds(data) && data[k].col in ColIds(data) by {
      forall k | 0 <= k < |data| ensures data[k].row in RowIds(data) && data[k].col in ColIds(data) {
        assert RowIds(data)[k] == data[k].row && ColIds(data)[k] == data[k].col;
      }
    }
  }

  // ---------------------------------------------------------------------------
  // step inference

  ghost predicate StrictlyIncreasing(s: seq<int>) {
    forall i, j :: 0 <= i < j < |s| ==> s[i] < s[j]
  }

  /** Inserts `x` into an increasing sequence, keeping it increasing and free
      of repeats. */
  function InsertSorted(s: seq<int>, x: int): (r: seq<int>)
    requires StrictlyIncreasing(s)
    ensures StrictlyIncreasing(r)
    ensures forall y :: y in r <==> y in s || y == x
    decreases |s|
  {
    if |s| == 0 then [x]
    else if x < s[0] then [x] + s
    else if x == s[0] then s
    else
      var rest := InsertSorted(s[1..], x);
      assert forall y :: y in rest ==> s[0] < y;
      ConsIncreasing(s[0], rest);
      [s[0]] + rest
  }

  lemma ConsIncreasing(h: int, rest: seq<int>)
    requires StrictlyIncreasing(rest) && forall y :: y in rest ==> h < y
    ensures StrictlyIncreasing([h] + rest)
  {
    var t := [h] + rest;
    forall i, j | 0 <= i < j < |t| ensures t[i] < t[j] {
      assert t[j] == rest[j - 1] && rest[j - 1] in rest;
      if i > 0 { assert t[i] == rest[i - 1]; }
    }
  }

  /** `sorted(set(xs))`. */
  function SortedDistinct(xs: seq<int>): (r: seq<int>)
    ensures StrictlyIncreasing(r)
    ensures forall y :: y in r <==> y in xs
    decreases |xs|
  {
    if |xs| == 0 then []
    else
      var init := xs[..|xs| - 1];
      assert xs == init + [xs[|xs| - 1]];
      InsertSorted(SortedDistinct(init), xs[|xs| - 1])
  }

  /** `min(a2 - a1 for a1, a2 in zip(s[:-1], s[1:]))`: the smallest gap
      between neighbours, which is positive and attained by some neighbours. */
  function MinGap(s: seq<int>): (g: int)
    requires |s| >= 2 && StrictlyIncreasing(s)
    ensures g > 0
    ensures forall i :: 0 <= i < |s| - 1 ==> g <= s[i + 1] - s[i]
    ensures exists i :: 0 <= i < |s| - 1 && g == s[i + 1] - s[i]
    decreases |s|
  {
    var d := s[1] - s[0];
    if |s| == 2 then d
    else
      var rest := MinGap(s[1..]);
      if d < rest then d else rest
  }

  /** The smallest neighbour gap of an increasing sequence bounds every
      difference between two of its elements. */
  lemma MinGapBoundsDifferences(s: seq<int>)
    requires |s| >= 2 && StrictlyIncreasing(s)
    ensures forall a, b :: a in s && b in s && a < b ==> MinGap(s) <= b - a
  {
    forall a, b | a in s && b in s && a < b ensures MinGap(s) <= b - a {
      var i :| 0 <= i < |s| && s[i] == a;
      var j :| 0 <= j < |s| && s[j] == b;
      assert i < j;
      assert s[i + 1] <= s[j];
    }
  }

  /** `xs` holds at least two different values. */
  ghost predicate HasTwoDistinct(xs: seq<int>) {
    exists a, b :: a in xs && b in xs && a != b
  }

  lemma SortedDistinctLength(xs: seq<int>)
    ensures |SortedDistinct(xs)| >= 2 <==> HasTwoDistinct(xs)
  {
    var s := SortedDistinct(xs);
    if |s| >= 2 {
      assert s[0] in xs && s[1] in xs;
    }
    if HasTwoDistinct(xs) {
      var a, b :| a in xs && b in xs && a != b;
      assert a in s && b in s;
    }
  }

  /** The smallest gap between two different coordinates of `xs`. */
  function AxisGap(xs: seq<int>, axis: Axis): (r: Result<int>)
    ensures r.Ok? <==> HasTwoDistinct(xs)
    ensures r.Err? ==> r.error == NoGap(axis)
    ensures r.Ok? ==> r.value > 0
    ensures r.Ok? ==> BelowEveryGap(r.value, xs) && IsGap(r.value, xs)
  {
    var s := SortedDistinct(xs);
    SortedDistinctLength(xs);
    if |s| < 2 then Err(NoGap(axis))
    else
      MinGapOfDistinct(xs, s);
      Ok(MinGap(s))
  }

  lemma MinGapOfDistinct(xs: seq<int>, s: seq<int>)
    requires s == SortedDistinct(xs) && |s| >= 2
    ensures BelowEveryGap(MinGap(s), xs) && IsGap(MinGap(s), xs)
  {
    var g := MinGap(s);
    MinGapBoundsDifferences(s);
    forall a, b | a in xs && b in xs && a < b ensures g <= b - a {
      assert a in s && b in s;
    }
    var i :| 0 <= i < |s| - 1 && g == s[i + 1] - s[i];
    assert s[i] in s && s[i + 1] in s;
    assert s[i] in xs && s[i + 1] in xs;
  }

  /** `g` is no larger than the difference of any two distinct elements of `xs`. */
  ghost predicate BelowEveryGap(g: int, xs: seq<int>) {
    forall a, b :: a in xs && b in xs && a < b ==> g <= b - a
  }

  /** `g` is the difference of two elements of `xs`. */
  ghost predicate IsGap(g: int, xs: seq<int>) {
    exists a, b :: a in xs && b in xs && b - a == g
  }

  /** The inferred resolution: the smaller of the smallest row gap and the
      smallest column gap. It fails, rows first, when an axis has fewer than
      two distinct coordinates; otherwise it is positive, no larger than the
      difference of any two distinct row ids or of any two distinct column
      ids, and equal to one such difference. */
  function InferStep<V>(data: seq<Contact<V>>): (r: Result<int>)
    ensures r.Ok? <==> HasTwoDistinct(RowIds(data)) && HasTwoDistinct(ColIds(data))
    ensures !HasTwoDistinct(RowIds(data)) ==> r == Err(NoGap(Rows))
    ensures HasTwoDistinct(RowIds(data)) && !HasTwoDistinct(ColIds(data)) ==> r == Err(NoGap(Columns))
    ensures r.Ok? ==> r.value > 0
    ensures r.Ok? ==> BelowEveryGap(r.value, RowIds(data)) && BelowEveryGap(r.value, ColIds(data))
    ensures r.Ok? ==> IsGap(r.value, RowIds(data)) || IsGap(r.value, ColIds(data))
  {
    var rows := RowIds(data);
    var cols := ColIds(data);
    match AxisGap(rows, Rows)
    case Err(e) => Err(e)
    case Ok(rowsMin) =>
      match AxisGap(cols, Columns)
      case Err(e) => Err(e)
      case Ok(columnsMin) =>
        assert IsGap(rowsMin, rows) && IsGap(columnsMin, cols);
        Ok(if rowsMin < columnsMin then rowsMin else columnsMin)
  }

  // ---------------------------------------------------------------------------
  // ranges and labels

  datatype Ranges = Ranges(rowLo: int, rowHi: int, colLo: int, colHi: int)

  /** The axis ranges of the matrix. With `ignoreEmptyStart` both axes start
      at 0; with `symmetrical` both axes share the lower of the two starts
      and the higher of the two ends. */
  function AdjustRanges(e: Extents, ignoreEmptyStart: bool, symmetrical: bool): (r: Ranges)
    ensures var lo1 := if ignoreEmptyStart then 0 else e.rowMin;
            var lo2 := if ignoreEmptyStart then 0 else e.colMin;
      && (!symmetrical ==> r == Ranges(lo1, e.rowMax, lo2, e.colMax))
      && (symmetrical ==> r.rowLo == r.colLo && r.rowHi == r.colHi)
      && (symmetrical ==> r.rowLo <= lo1 && r.rowLo <= lo2 && (r.rowLo == lo1 || r.rowLo == lo2))
      && (symmetrical ==> r.rowHi >= e.rowMax && r.rowHi >= e.colMax
                          && (r.rowHi == e.rowMax || r.rowHi == e.colMax))
  {
    var lo1 := if ignoreEmptyStart then 0 else e.rowMin;
    var lo2 := if ignoreEmptyStart then 0 else e.colMin;
    if !symmetrical then Ranges(lo1, e.rowMax, lo2, e.colMax)
    else
      var lo := if lo1 < lo2 then lo1 else lo2;
      var hi := if e.rowMax > e.colMax then e.rowMax else e.colMax;
      Ranges(lo, hi, lo, hi)
  }

  /** `np.arange(lo, hi, step)`: `lo + k * step` for every `k >= 0` that stays
      strictly before `hi` in the direction of `step`. */
  function Arange(lo: int, hi: int, step: int): (r: seq<int>)
    requires step != 0
    ensures forall k :: 0 <= k < |r| ==> r[k] == lo + k * step
    ensures step > 0 ==> (forall k :: 0 <= k < |r| ==> r[k] < hi) && hi <= lo + |r| * step
    ensures step < 0 ==> (forall k :: 0 <= k < |r| ==> r[k] > hi) && lo + |r| * step <= hi
    decreases if step > 0 then hi - lo else lo - hi
  {
    if (step > 0 && lo < hi) || (step < 0 && lo > hi) then
      var rest := Arange(lo + step, hi, step);
      ArangeShift(lo, step, rest);
      [lo] + rest
    else []
  }

  lemma ArangeShift(lo: int, step: int, rest: seq<int>)
    requires forall k :: 0 <= k < |rest| ==> rest[k] == lo + step + k * step
    ensures forall k :: 0 <= k < |[lo] + rest| ==> ([lo] + rest)[k] == lo + k * step
    ensures lo + step + |rest| * step == lo + |[lo] + rest| * step
  {
    forall k | 0 < k < |[lo] + rest| ensures ([lo] + rest)[k] == lo + k * step {
      assert ([lo] + rest)[k] == rest[k - 1];
      assert (k - 1) * step == k * step - step;
    }
    assert (|rest| + 1) * step == |rest| * step + step;
  }

  // ---------------------------------------------------------------------------
  // cells

  /** The cells written into the matrix; a cell never written keeps the
      initial 0. */
  type Cells<V> = map<(int, int), V>

  ghost predicate Symmetric<V>(m: Cells<V>) {
    forall a, b :: (a, b) in m ==> (b, a) in m && m[(b, a)] == m[(a, b)]
  }

  /** `0.0 if np.isnan(value) else value`. */
  function Clean<V>(v: V, isNaN: V -> bool, zero: V): (r: V)
    ensures !isNaN(v) ==> r == v
    ensures !isNaN(zero) ==> !isNaN(r)
  {
    if isNaN(v) then zero else v
  }

  /** The filling loop: every contact is written at `(row, col)` and at
      `(col, row)`, NaN written as 0, so the cells stay symmetric after every
      write. */
  function Fill<V>(data: seq<Contact<V>>, isNaN: V -> bool, zero: V): (m: Cells<V>)
    ensures Symmetric(m)
    decreases |data|
  {
    if |data| == 0 then map[]
    else
      var c := data[|data| - 1];
      var v := Clean(c.value, isNaN, zero);
      Fill(data[..|data| - 1], isNaN, zero)[(c.row, c.col) := v][(c.col, c.row) := v]
  }

  /** A cell is written exactly when some contact joins its two bins, and it
      holds the cleaned value of the last such contact. */
  lemma {:induction false} FillIsLastValue<V>(data: seq<Contact<V>>, isNaN: V -> bool, zero: V, a: int, b: int)
    ensures (a, b) in Fill(data, isNaN, zero) <==> LastValue(data, a, b).Some?
    ensures (a, b) in Fill(data, isNaN, zero) ==>
      Fill(data, isNaN, zero)[(a, b)] == Clean(LastValue(data, a, b).value, isNaN, zero)
    decreases |data|
  {
    if |data| > 0 {
      FillIsLastValue(data[..|data| - 1], isNaN, zero, a, b);
    }
  }

  /** The dense export agrees with the canonical store of the same dump: cell
      `(a, b)` is written exactly when the store holds the pair `{a, b}`, and
      then it holds the stored value with NaN replaced by 0. */
  lemma FillAgreesWithStore<V>(data: seq<Contact<V>>, isNaN: V -> bool, zero: V, a: int, b: int)
    ensures (a, b) in Fill(data, isNaN, zero) <==> FragMatrix.Get(FragMatrix.StoreAll(data), a, b).Some?
    ensures (a, b) in Fill(data, isNaN, zero) ==>
      Fill(data, isNaN, zero)[(a, b)] == Clean(FragMatrix.Get(FragMatrix.StoreAll(data), a, b).value, isNaN, zero)
  {
    FillIsLastValue(data, isNaN, zero, a, b);
    FragMatrix.StoreAllIsLastValue(data, a, b);
  }

  // ---------------------------------------------------------------------------
  // the export

  /** The dense matrix: row labels, column labels and the written cells. */
  datatype Frame<V> = Frame(rowLabels: seq<int>, colLabels: seq<int>, cells: Cells<V>)

  /** The step the export uses: the caller's, or the inferred one. */
  function ChooseStep<V>(data: seq<Contact<V>>, step: Option<int>): (r: Result<int>)
    ensures step.Some? ==> r == Ok(step.value)
    ensures step.None? ==> r == InferStep(data)
  {
    match step
    case Some(s) => Ok(s)
    case None => InferStep(data)
  }

  /** `labels` are `lo + k * step` for `k = 0, 1, ...`: with a positive step
      all lie strictly before `hi` and the next one would not, with a negative
      step all lie strictly after `hi` and the next one would not. */
  ghost predicate Labelled(labels: seq<int>, lo: int, hi: int, step: int) {
    && (forall k :: 0 <= k < |labels| ==> labels[k] == lo + k * step)
    && (step > 0 ==> (forall k :: 0 <= k < |labels| ==> labels[k] < hi) && hi <= lo + |labels| * step)
    && (step < 0 ==> (forall k :: 0 <= k < |labels| ==> labels[k] > hi) && lo + |labels| * step <= hi)
  }

  /** Exactly the cells of bins that some contact joins are written, each
      with the value of the last contact joining them, NaN written as 0. */
  ghost predicate FilledFrom<V>(cells: Cells<V>, data: seq<Contact<V>>, isNaN: V -> bool, zero: V) {
    && (forall a, b :: (a, b) in cells <==> LastValue(data, a, b).Some?)
    && (forall a, b :: (a, b) in cells ==> cells[(a, b)] == Clean(LastValue(data, a, b).value, isNaN, zero))
  }

  lemma FillFilledFrom<V>(data: seq<Contact<V>>, isNaN: V -> bool, zero: V)
    ensures FilledFrom(Fill(data, isNaN, zero), data, isNaN, zero)
  {
    var m := Fill(data, isNaN, zero);
    forall a, b
      ensures ((a, b) in m <==> LastValue(data, a, b).Some?)
      ensures (a, b) in m ==> m[(a, b)] == Clean(LastValue(data, a, b).value, isNaN, zero)
    {
      FillIsLastValue(data, isNaN, zero, a, b);
    }
  }

  /** `read_hic_export` on the rows of a dump. It fails on the first malformed
      row, on an inference that finds no gap, and on a zero step. Otherwise
      the labels of each axis step from the start of its adjusted range to
      just before its end, and the cells are the symmetric fill of the
      contacts. */
  function ReadHicExport<V>(rows: seq<seq<string>>, parseFloat: string -> Option<V>, step: Option<int>,
                            ignoreEmptyStart: bool, symmetrical: bool, isNaN: V -> bool, zero: V)
    : (r: Result<Frame<V>>)
    ensures ParseContacts(rows, parseFloat).Err? ==> r == Err(ParseContacts(rows, parseFloat).error)
    ensures ParseContacts(rows, parseFloat).Ok? ==>
      var data := ParseContacts(rows, parseFloat).value;
      && (ChooseStep(data, step).Err? ==> r == Err(ChooseStep(data, step).error))
      && (ChooseStep(data, step) == Ok(0) ==> r == Err(ZeroStep))
      && (r.Ok? <==> ChooseStep(data, step).Ok? && ChooseStep(data, step).value != 0)
      && (r.Ok? ==>
            var s := ChooseStep(data, step).value;
            var g := AdjustRanges(Scan(data), ignoreEmptyStart, symmetrical);
            && Labelled(r.value.rowLabels, g.rowLo, g.rowHi, s)
            && Labelled(r.value.colLabels, g.colLo, g.colHi, s)
            && Symmetric(r.value.cells)
            && FilledFrom(r.value.cells, data, isNaN, zero))
  {
    var data :- ParseContacts(rows, parseFloat);
    var e := Scan(data);
    var s :- ChooseStep(data, step);
    var g := AdjustRanges(e, ignoreEmptyStart, symmetrical);
    if s == 0 then Err(ZeroStep)
    else
      FillFilledFrom(data, isNaN, zero);
      Ok(Frame(Arange(g.rowLo, g.rowHi, s), Arange(g.colLo, g.colHi, s), Fill(data, isNaN, zero)))
  }
}
