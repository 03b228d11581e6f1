/** The in-memory inputs of the fragment contact script: the sparse contact
    store loaded from one chromosome-pair dump, and the fragment catalog
    grouped by chromosome. */
module FragMatrix {
  import opened Results
  import opened Strings
  import opened Records
  import opened Contacts

  // ---------------------------------------------------------------------------
  // contact store

  /** `result[i][j]`: a dictionary of dictionaries keyed by bin coordinates. */
  type ContactStore<V> = map<int, map<int, V>>

  /** Upper-triangular storage: every entry sits under its smaller coordinate. */
  ghost predicate Canonical<V>(s: ContactStore<V>) {
    forall i, j :: i in s && j in s[i] ==> i <= j
  }

  /** The inner dictionary of `i`, created empty on first use (`defaultdict`). */
  function Row<V>(s: ContactStore<V>, i: int): map<int, V> {
    if i in s then s[i] else map[]
  }

  /** The stored value for the unordered pair `{i, j}`, looked up under its
      smaller coordinate. */
  function Get<V>(s: ContactStore<V>, i: int, j: int): Option<V> {
    var lo := if i < j then i else j;
    var hi := if i < j then j else i;
    if lo in s && hi in s[lo] then Some(s[lo][hi]) else None
  }

  /** One step of the loading loop: stores `v` under `(min, max)` of the two
      coordinates, overwriting what the pair held before. */
  function Insert<V>(s: ContactStore<V>, rowId: int, colId: int, v: V): (r: ContactStore<V>)
    requires Canonical(s)
    ensures Canonical(r)
    ensures Get(r, rowId, colId) == Some(v) && Get(r, colId, rowId) == Some(v)
    ensures forall a, b :: !(a == rowId && b == colId) && !(a == colId && b == rowId) ==>
      Get(r, a, b) == Get(s, a, b)
  {
    if rowId < colId then s[rowId := Row(s, rowId)[colId := v]]
    else s[colId := Row(s, colId)[rowId := v]]
  }

  /** The store after inserting every contact, first to last. */
  function StoreAll<V>(data: seq<Contact<V>>): (r: ContactStore<V>)
    ensures Canonical(r)
    decreases |data|
  {
    if |data| == 0 then map[]
    else
      var c := data[|data| - 1];
      Insert(StoreAll(data[..|data| - 1]), c.row, c.col, c.value)
  }

  /** The store holds, for every pair of bins, the value of the last contact
      joining them in either orientation, and nothing for pairs no contact
      joins. */
  lemma {:induction false} StoreAllIsLastValue<V>(data: seq<Contact<V>>, a: int, b: int)
    ensures Get(StoreAll(data), a, b) == LastValue(data, a, b)
    decreases |data|
  {
    if |data| > 0 {
      StoreAllIsLastValue(data[..|data| - 1], a, b);
    }
  }

  function Flip<V>(c: Contact<V>): Contact<V> {
    Contact(c.col, c.row, c.value)
  }

  /** Storage is insensitive to orientation: flipping any of the input rows
      from `(r, c, v)` to `(c, r, v)` gives the same store. */
  lemma {:induction false} StoreAllIgnoresOrientation<V>(d1: seq<Contact<V>>, d2: seq<Contact<V>>)
    requires |d1| == |d2|
    requires forall k :: 0 <= k < |d1| ==> d2[k] == d1[k] || d2[k] == Flip(d1[k])
    ensures StoreAll(d1) == StoreAll(d2)
    decreases |d1|
  {
    if |d1| > 0 {
      var n := |d1| - 1;
      StoreAllIgnoresOrientation(d1[..n], d2[..n]);
    }
  }

  /** `load_hic_data` on the rows of a dump: every row is read before it is
      stored, and one malformed row (fewer than three fields, a coordinate
      that is not an integer, a value that is not a float) fails the whole
      load. */
  function LoadHicData<V>(rows: seq<seq<string>>, parseFloat: string -> Option<V>)
    : (r: Result<ContactStore<V>>)
    ensures r.Ok? <==> forall k :: 0 <= k < |rows| ==> ParseContact(rows[k], k, parseFloat).Ok?
    ensures r.Ok? ==> Canonical(r.value)
    ensures r.Ok? ==> forall a, b :: Get(r.value, a, b) == LastValue(ParseContacts(rows, parseFloat).value, a, b)
  {
    var data :- ParseContacts(rows, parseFloat);
    assert forall a, b :: Get(StoreAll(data), a, b) == LastValue(data, a, b) by {
      forall a, b ensures Get(StoreAll(data), a, b) == LastValue(data, a, b) {
        StoreAllIsLastValue(data, a, b);
      }
    }
    Ok(StoreAll(data))
  }

  // ---------------------------------------------------------------------------
  // fragment catalog

  datatype Fragment = Fragment(name: string, start: int, end: int, chromosome: string)

  /** `row[0], int(row[1]), int(row[2]), row[3]`, evaluated left to right:
      the fields are copied verbatim, the coordinates read as integers. */
  function ParseFragment(fields: seq<string>, index: nat): (r: Result<Fragment>)
    ensures r.Ok? <==> |fields| >= 4 && ParseInt(fields[1]).Some? && ParseInt(fields[2]).Some?
    ensures r.Ok? ==> r.value.name == fields[0] && r.value.chromosome == fields[3]
    ensures r.Ok? ==> r.value.start == ParseInt(fields[1]).value && r.value.end == ParseInt(fields[2]).value
  {
    if |fields| < 1 then Err(MissingField(index, 0))
    else
      var start :- IntField(fields, 1, index);
      var end :- IntField(fields, 2, index);
      if |fields| < 4 then Err(MissingField(index, 3))
      else Ok(Fragment(fields[0], start, end, fields[3]))
  }

  /** Reference definition: the fragments of `frs` that lie on chromosome
      `k`, in their original order. */
  function OnChromosome(frs: seq<Fragment>, k: string): seq<Fragment>
    decreases |frs|
  {
    if |frs| == 0 then []
    else (if frs[0].chromosome == k then [frs[0]] else []) + OnChromosome(frs[1..], k)
  }

  lemma {:induction false} OnChromosomeAppend(frs: seq<Fragment>, f: Fragment, k: string)
    ensures OnChromosome(frs + [f], k) == OnChromosome(frs, k) + (if f.chromosome == k then [f] else [])
    decreases |frs|
  {
    if |frs| > 0 {
      assert (frs + [f])[1..] == frs[1..] + [f];
      OnChromosomeAppend(frs[1..], f, k);
    } else {
      assert frs + [f] == [f];
    }
  }

  function Chromosomes(frs: seq<Fragment>): set<string> {
    set f | f in frs :: f.chromosome
  }

  /** The grouping loop of `get_fragments`: appends each fragment to the list
      of its chromosome. Every chromosome of the input gets a list holding
      exactly its fragments, in input order. */
  function Group(frs: seq<Fragment>): (r: map<string, seq<Fragment>>)
    ensures r.Keys == Chromosomes(frs)
    ensures forall k :: k in r ==> r[k] == OnChromosome(frs, k)
    decreases |frs|
  {
    if |frs| == 0 then map[]
    else
      var m := Group(frs[..|frs| - 1]);
      var f := frs[|frs| - 1];
      GroupStep(frs, m);
      m[f.chromosome := (if f.chromosome in m then m[f.chromosome] else []) + [f]]
  }

  /** Appending the last fragment to its chromosome's list extends the
      grouping of the earlier fragments to the grouping of all of them. */
  lemma GroupStep(frs: seq<Fragment>, m: map<string, seq<Fragment>>)
    requires |frs| > 0
    requires m.Keys == Chromosomes(frs[..|frs| - 1])
    requires forall k :: k in m ==> m[k] == OnChromosome(frs[..|frs| - 1], k)
    ensures var f := frs[|frs| - 1];
      var r := m[f.chromosome := (if f.chromosome in m then m[f.chromosome] else []) + [f]];
      r.Keys == Chromosomes(frs) && forall k :: k in r ==> r[k] == OnChromosome(frs, k)
  {
    var f := frs[|frs| - 1];
    var r := m[f.chromosome := (if f.chromosome in m then m[f.chromosome] else []) + [f]];
    forall k | k in r ensures r[k] == OnChromosome(frs, k) {
      GroupStepAt(frs, m, k);
    }
    GroupStepKeys(frs, m, r[f.chromosome]);
  }

  lemma GroupStepKeys(frs: seq<Fragment>, m: map<string, seq<Fragment>>, v: seq<Fragment>)
    requires |frs| > 0
    requires m.Keys == Chromosomes(frs[..|frs| - 1])
    ensures m[frs[|frs| - 1].chromosome := v].Keys == Chromosomes(frs)
  {
    var init, f := frs[..|frs| - 1], frs[|frs| - 1];
    assert frs == init + [f];
    ChromosomesAppend(init, f);
  }

  lemma GroupStepAt(frs: seq<Fragment>, m: map<string, seq<Fragment>>, k: string)
    requires |frs| > 0
    requires m.Keys == Chromosomes(frs[..|frs| - 1])
    requires k in m ==> m[k] == OnChromosome(frs[..|frs| - 1], k)
    ensures var f := frs[|frs| - 1];
      var r := m[f.chromosome := (if f.chromosome in m then m[f.chromosome] else []) + [f]];
      k in r ==> r[k] == OnChromosome(frs, k)
  {
    var init, f := frs[..|frs| - 1], frs[|frs| - 1];
    assert frs == init + [f];
    OnChromosomeAppend(init, f, k);
    if k !in m {
      OnChromosomeEmpty(init, k);
    }
  }

  lemma ChromosomesAppend(frs: seq<Fragment>, f: Fragment)
    ensures Chromosomes(frs + [f]) == Chromosomes(frs) + {f.chromosome}
  {
    assert f in frs + [f];
    forall g | g in frs ensures g in frs + [f] {
    }
  }

  lemma {:induction false} OnChromosomeEmpty(frs: seq<Fragment>, k: string)
    requires k !in Chromosomes(frs)
    ensures OnChromosome(frs, k) == []
    decreases |frs|
  {
    if |frs| > 0 {
      assert frs[0] in frs;
      assert Chromosomes(frs[1..]) <= Chromosomes(frs) by {
        forall c | c in Chromosomes(frs[1..]) ensures c in Chromosomes(frs) {
          var g :| g in frs[1..] && g.chromosome == c;
          assert g in frs;
        }
      }
      OnChromosomeEmpty(frs[1..], k);
    }
  }

  /** Every fragment filed under chromosome `k` lies on `k`. */
  lemma {:induction false} OnChromosomeSound(frs: seq<Fragment>, k: string)
    ensures forall f :: f in OnChromosome(frs, k) ==> f in frs && f.chromosome == k
    decreases |frs|
  {
    if |frs| > 0 {
      OnChromosomeSound(frs[1..], k);
    }
  }

  /** `get_fragments` on the rows of a catalog: one malformed row (fewer than
      four fields, a start or end that is not an integer) fails the whole
      load; otherwise every chromosome maps to its fragments in file order,
      each fragment filed under its own chromosome. */
  function GetFragments(rows: seq<seq<string>>): (r: Result<map<string, seq<Fragment>>>)
    ensures r.Ok? <==> forall k :: 0 <= k < |rows| ==> ParseFragment(rows[k], k).Ok?
    ensures r.Ok? ==> forall c :: c in r.value ==>
      forall i :: 0 <= i < |r.value[c]| ==> r.value[c][i].chromosome == c
    ensures r.Ok? ==> r.value == Group(ParseRows(rows, ParseFragment).value)
  {
    var frs :- ParseRows(rows, ParseFragment);
    var m := Group(frs);
    forall c | c in m ensures forall i :: 0 <= i < |m[c]| ==> m[c][i].chromosome == c {
      OnChromosomeSound(frs, c);
    }
    Ok(m)
  }

  /** `get_fragments` as written: after the grouping loop it logs
      `sum(lambda fr_list: len(fr_list), ...)`, which hands `sum` a function
      where an iterable is expected, so the call raises instead of returning
      the catalog. A malformed row still raises first. */
  function GetFragmentsAsWritten(rows: seq<seq<string>>): (r: Result<map<string, seq<Fragment>>>)
    ensures r.Err?
    ensures r.error == NotIterable("function") <==> forall k :: 0 <= k < |rows| ==> ParseFragment(rows[k], k).Ok?
  {
    match GetFragments(rows)
    case Err(e) =>
      assert e.MissingField? || e.NotANumber? by {
        var k :| 0 <= k < |rows| && ParseFragment(rows[k], k).Err? && e == ParseFragment(rows[k], k).error;
      }
      Err(e)
    case Ok(_) => Err(NotIterable("function"))
  }

  /** An empty catalog shows it: the intended call returns an empty
      grouping, the call as written raises. */
  lemma GetFragmentsAsWrittenExample()
    ensures GetFragments([]) == Ok(map[])
    ensures GetFragmentsAsWritten([]) == Err(NotIterable("function"))
  {
  }

  // ---------------------------------------------------------------------------
  // no fragment is lost

  /** How often `x` occurs in `ks`. */
  function Occurrences(ks: seq<string>, x: string): nat
    decreases |ks|
  {
    if |ks| == 0 then 0 else (if ks[0] == x then 1 else 0) + Occurrences(ks[1..], x)
  }

  /** The total length of the lists of the chromosomes `ks` names. */
  function TotalLength(m: map<string, seq<Fragment>>, ks: seq<string>): nat
    decreases |ks|
  {
    if |ks| == 0 then 0 else (if ks[0] in m then |m[ks[0]]| else 0) + TotalLength(m, ks[1..])
  }

  /** Adding one fragment to `frs` adds it once for every listing of its chromosome in `ks`. */
  lemma {:induction false} TotalOnChromosomeAppend(frs: seq<Fragment>, f: Fragment, ks: seq<string>)
    ensures TotalOnChromosome(frs + [f], ks) == TotalOnChromosome(frs, ks) + Occurrences(ks, f.chromosome)
    decreases |ks|
  {
    if |ks| > 0 {
      OnChromosomeAppend(frs, f, ks[0]);
      TotalOnChromosomeAppend(frs, f, ks[1..]);
    }
  }

  function TotalOnChromosome(frs: seq<Fragment>, ks: seq<string>): nat
    decreases |ks|
  {
    if |ks| == 0 then 0 else |OnChromosome(frs, ks[0])| + TotalOnChromosome(frs, ks[1..])
  }

  lemma {:induction false} OccursOnce(ks: seq<string>, x: string)
    requires forall i, j :: 0 <= i < j < |ks| ==> ks[i] != ks[j]
    ensures Occurrences(ks, x) == (if x in ks then 1 else 0)
    decreases |ks|
  {
    if |ks| > 0 {
      OccursOnce(ks[1..], x);
      if ks[0] == x {
        assert x !in ks[1..] by {
          forall i | 0 <= i < |ks[1..]| ensures ks[1..][i] != x {
            assert ks[1..][i] == ks[i + 1];
          }
        }
      }
      assert x in ks <==> ks[0] == x || x in ks[1..];
    }
  }

  lemma {:induction false} TotalOnChromosomeCounts(frs: seq<Fragment>, ks: seq<string>)
    requires forall i, j :: 0 <= i < j < |ks| ==> ks[i] != ks[j]
    requires Chromosomes(frs) <= (set k | k in ks)
    ensures TotalOnChromosome(frs, ks) == |frs|
    decreases |frs|
  {
    if |frs| == 0 {
      TotalOnChromosomeZero(ks);
    } else {
      var init := frs[..|frs| - 1];
      var f := frs[|frs| - 1];
      assert frs == init + [f];
      assert Chromosomes(init) <= Chromosomes(frs);
      TotalOnChromosomeCounts(init, ks);
      TotalOnChromosomeAppend(init, f, ks);
      assert f.chromosome in Chromosomes(frs);
      OccursOnce(ks, f.chromosome);
    }
  }

  lemma {:induction false} TotalOnChromosomeZero(ks: seq<string>)
    ensures TotalOnChromosome([], ks) == 0
    decreases |ks|
  {
    if |ks| > 0 {
      TotalOnChromosomeZero(ks[1..]);
    }
  }

  lemma {:induction false} TotalLengthOfGroup(frs: seq<Fragment>, ks: seq<string>)
    ensures TotalLength(Group(frs), ks) == TotalOnChromosome(frs, ks)
    decreases |ks|
  {
    if |ks| > 0 {
      TotalLengthOfGroup(frs, ks[1..]);
      if ks[0] !in Group(frs) {
        OnChromosomeEmpty(frs, ks[0]);
      }
    }
  }

  /** No fragment is lost or invented: whatever order the chromosomes are
      visited in, the lists of the grouped catalog hold as many fragments in
      all as the input has. */
  lemma GroupKeepsEveryFragment(frs: seq<Fragment>, ks: seq<string>)
    requires forall i, j :: 0 <= i < j < |ks| ==> ks[i] != ks[j]
    requires (set k | k in ks) == Group(frs).Keys
    ensures TotalLength(Group(frs), ks) == |frs|
  {
    TotalLengthOfGroup(frs, ks);
    TotalOnChromosomeCounts(frs, ks);
  }
}
