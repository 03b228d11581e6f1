/** The batch script that dumps one contact file per chromosome pair of a
    cell line: the chromosome tables, the enumeration of the pairs for the
    `inter`, `intra` and `all` selections, the job name and the name of each
    dump file. */
module ExportJobs {
  import opened Strings
  import opened DumpNames

  // ---------------------------------------------------------------------------
  // tables

  const HumanChromosomes: seq<string> :=
    ["1", "2", "3", "4", "5", "6", "7", "8", "9", "10", "11", "12", "13", "14", "15", "16", "17", "18",
     "19", "20", "21", "22", "X"]
  const MouseChromosomes: seq<string> :=
    ["chr1", "chr2", "chr3", "chr4", "chr5", "chr6", "chr7", "chr8", "chr9", "chr10", "chr11", "chr12",
     "chr13", "chr14", "chr15", "chr16", "chr17", "chr18", "chr19", "chrX"]
  const DogChromosomes: seq<string> :=
    ["1", "2", "3", "4", "5", "6", "7", "8", "9", "10", "11", "12", "13", "14", "15", "16", "17", "18",
     "19", "20", "21", "22", "23", "24", "25", "26", "27", "28", "29", "30", "31", "32", "33", "34",
     "35", "36", "37", "38", "X"]
  const RabbitChromosomes: seq<string> :=
    ["1", "2", "3", "4", "5", "6", "7", "8", "9", "10", "11", "12", "13", "14", "15", "16", "17", "18",
     "19", "20", "21", "X"]
  const MacaqueChromosomes: seq<string> :=
    ["1", "2", "3", "4", "5", "6", "7", "8", "9", "10", "11", "12", "13", "14", "15", "16", "17", "18",
     "19", "20", "X"]

  /** The cell lines the script accepts and the chromosomes of each. */
  const CellLineChromosomes: map<string, seq<string>> := map[
    "rao14_gm12878" := HumanChromosomes,
    "rao14_imr90" := HumanChromosomes,
    "rao14_hmec" := HumanChromosomes,
    "rao14_nhek" := HumanChromosomes,
    "rao14_k562" := HumanChromosomes,
    "rao14_kbm7" := HumanChromosomes,
    "rao14_huvec" := HumanChromosomes,
    "rao14_chx12" := MouseChromosomes,
    "rudan15_dog1" := DogChromosomes,
    "rudan15_dog2" := DogChromosomes,
    "rudan15_mouse1" := MouseChromosomes,
    "rudan15_mouse2" := MouseChromosomes,
    "rudan15_macaque1" := MacaqueChromosomes,
    "rudan15_macaque2" := MacaqueChromosomes,
    "rudan15_rabbit1" := RabbitChromosomes,
    "rudan15_rabbit2" := RabbitChromosomes
  ]

  /** The `.hic` file each cell line is dumped from, as listed. It lists
      `rao14_hela`, which has no chromosome table, and gives both dog
      replicates the file of the first. */
  const CellLineSourcesAsWritten: map<string, string> := map[
    "rao14_gm12878" := "https://hicfiles.s3.amazonaws.com/hiseq/gm12878/in-situ/combined.hic",
    "rao14_imr90" := "https://hicfiles.s3.amazonaws.com/hiseq/imr90/in-situ/combined.hic",
    "rao14_hmec" := "https://hicfiles.s3.amazonaws.com/hiseq/hmec/in-situ/combined.hic",
    "rao14_nhek" := "https://hicfiles.s3.amazonaws.com/hiseq/nhek/in-situ/combined.hic",
    "rao14_k562" := "https://hicfiles.s3.amazonaws.com/hiseq/k562/in-situ/combined.hic",
    "rao14_kbm7" := "https://hicfiles.s3.amazonaws.com/hiseq/kbm7/in-situ/combined.hic",
    "rao14_huvec" := "https://hicfiles.s3.amazonaws.com/hiseq/huvec/in-situ/combined.hic",
    "rao14_hela" := "https://hicfiles.s3.amazonaws.com/hiseq/hela/in-situ/combined.hic",
    "rao14_chx12" := "https://hicfiles.s3.amazonaws.com/hiseq/ch12-lx-b-lymphoblasts/in-situ/combined.hic",
    "rudan15_dog1" := "http://hicfiles.s3.amazonaws.com/external/rudan/canis-lupus-rep1.hic",
    "rudan15_dog2" := "http://hicfiles.s3.amazonaws.com/external/rudan/canis-lupus-rep1.hic",
    "rudan15_mouse1" := "http://hicfiles.s3.amazonaws.com/external/rudan/mouse-rep1.hic",
    "rudan15_mouse2" := "http://hicfiles.s3.amazonaws.com/external/rudan/mouse-rep2.hic",
    "rudan15_macaque1" := "http://hicfiles.s3.amazonaws.com/external/rudan/macaque-rep1.hic",
    "rudan15_macaque2" := "http://hicfiles.s3.amazonaws.com/external/rudan/macaque-rep2.hic",
    "rudan15_rabbit1" := "http://hicfiles.s3.amazonaws.com/external/rudan/rabbit-rep1.hic",
    "rudan15_rabbit2" := "http://hicfiles.s3.amazonaws.com/external/rudan/rabbit-rep2.hic"
  ]

  /** The source table with the second dog replicate reading its own file,
      as the other replicate pairs do. */
  const CellLineSources: map<string, string> :=
    CellLineSourcesAsWritten["rudan15_dog2" := "http://hicfiles.s3.amazonaws.com/external/rudan/canis-lupus-rep2.hic"]

  /** As listed, the two dog replicates are dumped from the same file. */
  lemma DogReplicatesShareSourceAsWritten()
    ensures "rudan15_dog1" in CellLineChromosomes && "rudan15_dog2" in CellLineChromosomes
    ensures CellLineSourcesAsWritten["rudan15_dog1"] == CellLineSourcesAsWritten["rudan15_dog2"]
  {
  }

  /** Every accepted cell line has a source in the table as listed and in
      the corrected one, so looking it up cannot fail. In the corrected
      table the two replicates of each `rudan15` species read different
      files. */
  lemma CellLineSourcesCover()
    ensures forall c :: c in CellLineChromosomes ==> c in CellLineSourcesAsWritten
    ensures forall c :: c in CellLineChromosomes ==> c in CellLineSources
    ensures CellLineSources["rudan15_dog1"] != CellLineSources["rudan15_dog2"]
    ensures CellLineSources["rudan15_mouse1"] != CellLineSources["rudan15_mouse2"]
    ensures CellLineSources["rudan15_macaque1"] != CellLineSources["rudan15_macaque2"]
    ensures CellLineSources["rudan15_rabbit1"] != CellLineSources["rudan15_rabbit2"]
  {
  }

  // ---------------------------------------------------------------------------
  // pair enumeration

  /** The `--chromosomes` choice. */
  datatype Mode = Inter | Intra | All

  function ModeName(m: Mode): string {
    match m
    case Inter => "inter"
    case Intra => "intra"
    case All => "all"
  }

  type Pair = (string, string)

  /** `(chr1, chr2) if chr1 < chr2 else (chr2, chr1)`: the two names, smaller
      first. */
  function Canon(a: string, b: string): (p: Pair)
    ensures !Less(p.1, p.0)
    ensures (p.0 == a && p.1 == b) || (p.0 == b && p.1 == a)
  {
    LessStrictTotal(a, b);
    if Less(a, b) then (a, b) else (b, a)
  }

  /** The canonical pair does not depend on the order of the names. */
  lemma CanonSymmetric(a: string, b: string)
    ensures Canon(a, b) == Canon(b, a)
  {
    LessStrictTotal(a, b);
  }

  /** The pair of `a` and `b` is kept: `inter` drops a chromosome paired with itself. */
  predicate Wanted(mode: Mode, a: string, b: string) {
    !(mode == Inter && a == b)
  }

  ghost predicate NoDup<T>(s: seq<T>) {
    forall i, j :: 0 <= i < j < |s| ==> s[i] != s[j]
  }

  /** What holds of the emitted list and the observed set at every point of
      the nested loops. */
  ghost predicate ScanState(mode: Mode, acc: seq<Pair>, seen: set<Pair>) {
    && (forall p :: p in seen <==> p in acc)
    && NoDup(acc)
    && (forall k :: 0 <= k < |acc| ==> !Less(acc[k].1, acc[k].0))
    && (mode == Inter ==> forall k :: 0 <= k < |acc| ==> acc[k].0 != acc[k].1)
  }

  /** `p` is the pair of `chroms[i]` with one of `chroms[from..]`, and is kept. */
  ghost predicate PairsWithRow(chroms: seq<string>, mode: Mode, i: nat, from: nat, p: Pair)
    requires i < |chroms|
  {
    exists j :: from <= j < |chroms| && p == Canon(chroms[i], chroms[j]) && Wanted(mode, chroms[i], chroms[j])
  }

  /** `p` is the pair of one of `chroms[from..]` with any of `chroms`, and is kept. */
  ghost predicate PairsFromRow(chroms: seq<string>, mode: Mode, from: nat, p: Pair) {
    exists i, j :: from <= i < |chroms| && 0 <= j < |chroms| && p == Canon(chroms[i], chroms[j])
      && Wanted(mode, chroms[i], chroms[j])
  }

  lemma AppendKeepsScanState(mode: Mode, acc: seq<Pair>, seen: set<Pair>, p: Pair)
    requires ScanState(mode, acc, seen)
    requires p !in seen && !Less(p.1, p.0) && (mode == Inter ==> p.0 != p.1)
    ensures ScanState(mode, acc + [p], seen + {p})
  {
    var acc' := acc + [p];
    forall i, j | 0 <= i < j < |acc'| ensures acc'[i] != acc'[j] {
      if j == |acc| {
        assert acc'[i] == acc[i];
        assert acc[i] in acc;
      }
    }
  }

  /** The inner loop over `chroms[j..]` for `chr1 = chroms[i]`: a pair already
      observed is skipped, in `inter` mode so is a chromosome paired with
      itself, every other pair is emitted and observed. */
  function VisitRow(chroms: seq<string>, mode: Mode, i: nat, j: nat, acc: seq<Pair>, seen: set<Pair>)
    : (r: (seq<Pair>, set<Pair>))
    requires i < |chroms| && j <= |chroms|
    requires ScanState(mode, acc, seen)
    ensures ScanState(mode, r.0, r.1)
    ensures forall p :: p in r.0 <==> p in acc || PairsWithRow(chroms, mode, i, j, p)
    decreases |chroms| - j
  {
    if j == |chroms| then (acc, seen)
    else
      var p := Canon(chroms[i], chroms[j]);
      if p in seen then VisitRow(chroms, mode, i, j + 1, acc, seen)
      else if p.0 == p.1 && mode == Inter then VisitRow(chroms, mode, i, j + 1, acc, seen)
      else
        AppendKeepsScanState(mode, acc, seen, p);
        VisitRow(chroms, mode, i, j + 1, acc + [p], seen + {p})
  }

  /** The outer loop over `chroms[i..]`. */
  function VisitRows(chroms: seq<string>, mode: Mode, i: nat, acc: seq<Pair>, seen: set<Pair>)
    : (r: (seq<Pair>, set<Pair>))
    requires i <= |chroms|
    requires ScanState(mode, acc, seen)
    ensures ScanState(mode, r.0, r.1)
    ensures forall p :: p in r.0 <==> p in acc || PairsFromRow(chroms, mode, i, p)
    decreases |chroms| - i
  {
    if i == |chroms| then (acc, seen)
    else
      var row := VisitRow(chroms, mode, i, 0, acc, seen);
      var r := VisitRows(chroms, mode, i + 1, row.0, row.1);
      RowsSplit(chroms, mode, i);
      r
  }

  /** The pairs from row `i` on are those of row `i` and those from row `i + 1` on. */
  lemma RowsSplit(chroms: seq<string>, mode: Mode, i: nat)
    requires i < |chroms|
    ensures forall p :: PairsFromRow(chroms, mode, i, p) <==>
      PairsWithRow(chroms, mode, i, 0, p) || PairsFromRow(chroms, mode, i + 1, p)
  {
    forall p | PairsFromRow(chroms, mode, i, p)
      ensures PairsWithRow(chroms, mode, i, 0, p) || PairsFromRow(chroms, mode, i + 1, p)
    {
      var a, b :| i <= a < |chroms| && 0 <= b < |chroms| && p == Canon(chroms[a], chroms[b])
        && Wanted(mode, chroms[a], chroms[b]);
      if a == i {
        assert PairsWithRow(chroms, mode, i, 0, p);
      } else {
        assert PairsFromRow(chroms, mode, i + 1, p);
      }
    }
    forall p | PairsWithRow(chroms, mode, i, 0, p) ensures PairsFromRow(chroms, mode, i, p) {
      var b :| 0 <= b < |chroms| && p == Canon(chroms[i], chroms[b]) && Wanted(mode, chroms[i], chroms[b]);
      assert PairsFromRow(chroms, mode, i, p);
    }
    forall p | PairsFromRow(chroms, mode, i + 1, p) ensures PairsFromRow(chroms, mode, i, p) {
      var a, b :| i + 1 <= a < |chroms| && 0 <= b < |chroms| && p == Canon(chroms[a], chroms[b])
        && Wanted(mode, chroms[a], chroms[b]);
      assert PairsFromRow(chroms, mode, i, p);
    }
  }

  /** The list of chromosome pairs to dump. In `intra` mode it is every
      chromosome paired with itself, in list order. Otherwise every pair is
      ordered smaller name first, no pair is emitted twice, `inter` mode
      emits no chromosome paired with itself, and the emitted pairs are
      exactly the kept pairs of any two listed chromosomes. */
  function EnumeratePairs(chroms: seq<string>, mode: Mode): (r: seq<Pair>)
    ensures mode == Intra ==> |r| == |chroms| && forall k :: 0 <= k < |chroms| ==> r[k] == (chroms[k], chroms[k])
    ensures mode != Intra ==> NoDup(r)
    ensures mode != Intra ==> forall k :: 0 <= k < |r| ==> !Less(r[k].1, r[k].0)
    ensures mode == Inter ==> forall k :: 0 <= k < |r| ==> r[k].0 != r[k].1
    ensures mode != Intra ==> forall p :: p in r <==> PairsFromRow(chroms, mode, 0, p)
  {
    if mode == Intra then seq(|chroms|, k requires 0 <= k < |chroms| => (chroms[k], chroms[k]))
    else VisitRows(chroms, mode, 0, [], {}).0
  }

  /** In `all` mode every listed chromosome is paired with itself exactly once. */
  lemma AllPairsEachChromosomeWithItselfOnce(chroms: seq<string>, c: string)
    requires c in chroms
    ensures var r := EnumeratePairs(chroms, All);
      exists k :: 0 <= k < |r| && r[k] == (c, c) && forall k' :: 0 <= k' < |r| && r[k'] == (c, c) ==> k' == k
  {
    var r := EnumeratePairs(chroms, All);
    var i :| 0 <= i < |chroms| && chroms[i] == c;
    assert Canon(c, c) == (c, c);
    assert Wanted(All, chroms[i], chroms[i]);
    assert PairsFromRow(chroms, All, 0, (c, c));
    assert (c, c) in r;
    var k :| 0 <= k < |r| && r[k] == (c, c);
    assert NoDup(r);
    assert forall k' :: 0 <= k' < |r| && r[k'] == (c, c) ==> k' == k;
  }

  // ---------------------------------------------------------------------------
  // the enumeration of a list without repeats

  /** Reference definition: the kept pairs of `chroms[i]` with `chroms[j']`
      for `i <= j' < j`, in that order. */
  function UpperRow(chroms: seq<string>, mode: Mode, i: nat, j: nat): seq<Pair>
    requires i < |chroms| && j <= |chroms|
    decreases j
  {
    if j <= i then []
    else UpperRow(chroms, mode, i, j - 1)
         + (if mode == Inter && j - 1 == i then [] else [Canon(chroms[i], chroms[j - 1])])
  }

  /** Reference definition: the upper triangle of the first `i` rows, row by row. */
  function Upper(chroms: seq<string>, mode: Mode, i: nat): seq<Pair>
    requires i <= |chroms|
    decreases i
  {
    if i == 0 then [] else Upper(chroms, mode, i - 1) + UpperRow(chroms, mode, i - 1, |chroms|)
  }

  /** Row `i` up to column `j` holds the pair of `chroms[i]` with every
      `chroms[b]`, `i <= b < j`, that the mode keeps. */
  lemma {:induction false} UpperRowHas(chroms: seq<string>, mode: Mode, i: nat, j: nat, b: nat)
    requires i <= b < j <= |chroms|
    requires !(mode == Inter && b == i)
    ensures Canon(chroms[i], chroms[b]) in UpperRow(chroms, mode, i, j)
    decreases j
  {
    if b < j - 1 {
      UpperRowHas(chroms, mode, i, j - 1, b);
    }
  }

  /** The first `i` rows hold the pair of row `a < i`, column `b >= a`, when
      the mode keeps it. */
  lemma {:induction false} UpperHas(chroms: seq<string>, mode: Mode, i: nat, a: nat, b: nat)
    requires a < i <= |chroms| && a <= b < |chroms|
    requires !(mode == Inter && b == a)
    ensures Canon(chroms[a], chroms[b]) in Upper(chroms, mode, i)
    decreases i
  {
    var prev := Upper(chroms, mode, i - 1);
    var row := UpperRow(chroms, mode, i - 1, |chroms|);
    assert Upper(chroms, mode, i) == prev + row;
    if a < i - 1 {
      UpperHas(chroms, mode, i - 1, a, b);
      assert Canon(chroms[a], chroms[b]) in prev;
    } else {
      UpperRowHas(chroms, mode, a, |chroms|, b);
      assert Canon(chroms[a], chroms[b]) in row;
    }
  }

  /** Every pair of row `a` names `chroms[a]`, so a pair without it is not there. */
  lemma {:induction false} UpperRowLacksOther(chroms: seq<string>, mode: Mode, a: nat, j: nat, p: Pair)
    requires a < |chroms| && j <= |chroms|
    requires p.0 != chroms[a] && p.1 != chroms[a]
    ensures p !in UpperRow(chroms, mode, a, j)
    decreases j
  {
    if j > a {
      UpperRowLacksOther(chroms, mode, a, j - 1, p);
    }
  }

  /** A pair naming `c`, where `c` is none of `chroms[a..j]`, is not in row `a` up to column `j`. */
  lemma {:induction false} UpperRowLacksName(chroms: seq<string>, mode: Mode, a: nat, j: nat, p: Pair, c: string)
    requires a < |chroms| && j <= |chroms|
    requires p.0 == c || p.1 == c
    requires c != chroms[a] && forall b :: a <= b < j ==> chroms[b] != c
    ensures p !in UpperRow(chroms, mode, a, j)
    decreases j
  {
    if j > a {
      UpperRowLacksName(chroms, mode, a, j - 1, p, c);
    }
  }

  /** A pair naming none of `chroms[..i]` is not in the first `i` rows. */
  lemma {:induction false} UpperLacks(chroms: seq<string>, mode: Mode, i: nat, p: Pair)
    requires i <= |chroms|
    requires p.0 !in chroms[..i] && p.1 !in chroms[..i]
    ensures p !in Upper(chroms, mode, i)
    decreases i
  {
    if i > 0 {
      assert chroms[..i] == chroms[..i - 1] + [chroms[i - 1]];
      UpperLacks(chroms, mode, i - 1, p);
      UpperRowLacksOther(chroms, mode, i - 1, |chroms|, p);
    }
  }

  /** The inner loop over a list without repeats emits the upper-triangle part
      of its row. */
  lemma {:induction false} VisitRowIsUpperRow(chroms: seq<string>, mode: Mode, i: nat, j: nat, acc: seq<Pair>, seen: set<Pair>)
    requires NoDup(chroms) && i < |chroms| && j <= |chroms|
    requires ScanState(mode, acc, seen)
    requires acc == Upper(chroms, mode, i) + UpperRow(chroms, mode, i, j)
    ensures VisitRow(chroms, mode, i, j, acc, seen).0 == Upper(chroms, mode, i + 1)
    decreases |chroms| - j
  {
    if j == |chroms| {
      assert Upper(chroms, mode, i + 1) == Upper(chroms, mode, i) + UpperRow(chroms, mode, i, j);
    } else {
      var acc', seen' := VisitRowStep(chroms, mode, i, j, acc, seen);
      VisitRowIsUpperRow(chroms, mode, i, j + 1, acc', seen');
    }
  }

  /** One column of the inner loop keeps the emitted list equal to the upper
      triangle so far. */
  lemma VisitRowStep(chroms: seq<string>, mode: Mode, i: nat, j: nat, acc: seq<Pair>, seen: set<Pair>)
    returns (acc': seq<Pair>, seen': set<Pair>)
    requires NoDup(chroms) && i < |chroms| && j < |chroms|
    requires ScanState(mode, acc, seen)
    requires acc == Upper(chroms, mode, i) + UpperRow(chroms, mode, i, j)
    ensures ScanState(mode, acc', seen')
    ensures acc' == Upper(chroms, mode, i) + UpperRow(chroms, mode, i, j + 1)
    ensures VisitRow(chroms, mode, i, j, acc, seen) == VisitRow(chroms, mode, i, j + 1, acc', seen')
  {
    var p := Canon(chroms[i], chroms[j]);
    if j < i {
      EarlierPairSeen(chroms, mode, i, j, acc, seen);
      acc', seen' := acc, seen;
    } else {
      NewPairUnseen(chroms, mode, i, j);
      assert p !in seen;
      if p.0 == p.1 && mode == Inter {
        acc', seen' := acc, seen;
      } else {
        AppendKeepsScanState(mode, acc, seen, p);
        acc', seen' := acc + [p], seen + {p};
      }
    }
  }

  /** Row `i` meets column `j < i` in a pair the earlier rows already hold. */
  lemma EarlierPairSeen(chroms: seq<string>, mode: Mode, i: nat, j: nat, acc: seq<Pair>, seen: set<Pair>)
    requires j < i < |chroms|
    requires ScanState(mode, acc, seen)
    requires acc == Upper(chroms, mode, i) + UpperRow(chroms, mode, i, j)
    ensures Canon(chroms[i], chroms[j]) in seen
  {
    CanonSymmetric(chroms[i], chroms[j]);
    UpperHas(chroms, mode, i, j, i);
  }

  /** In a list without repeats, the pair at row `i`, column `j >= i` is in
      neither the earlier rows nor the earlier columns of its row, and names
      one chromosome twice only on the diagonal. */
  lemma NewPairUnseen(chroms: seq<string>, mode: Mode, i: nat, j: nat)
    requires NoDup(chroms) && i <= j < |chroms|
    ensures Canon(chroms[i], chroms[j]) !in Upper(chroms, mode, i)
    ensures Canon(chroms[i], chroms[j]) !in UpperRow(chroms, mode, i, j)
    ensures Canon(chroms[i], chroms[j]).0 == Canon(chroms[i], chroms[j]).1 <==> j == i
  {
    var p := Canon(chroms[i], chroms[j]);
    var before := chroms[..i];
    forall k | 0 <= k < |before| ensures before[k] != chroms[i] && before[k] != chroms[j] {
      assert before[k] == chroms[k];
    }
    UpperLacks(chroms, mode, i, p);
    if j > i {
      UpperRowLacksName(chroms, mode, i, j, p, chroms[j]);
    }
  }

  lemma {:induction false} VisitRowsIsUpper(chroms: seq<string>, mode: Mode, i: nat, acc: seq<Pair>, seen: set<Pair>)
    requires NoDup(chroms) && i <= |chroms|
    requires ScanState(mode, acc, seen)
    requires acc == Upper(chroms, mode, i)
    ensures VisitRows(chroms, mode, i, acc, seen).0 == Upper(chroms, mode, |chroms|)
    decreases |chroms| - i
  {
    if i < |chroms| {
      assert acc == Upper(chroms, mode, i) + UpperRow(chroms, mode, i, 0);
      VisitRowIsUpperRow(chroms, mode, i, 0, acc, seen);
      var row := VisitRow(chroms, mode, i, 0, acc, seen);
      VisitRowsIsUpper(chroms, mode, i + 1, row.0, row.1);
    }
  }

  lemma {:induction false} UpperRowLength(chroms: seq<string>, mode: Mode, i: nat, j: nat)
    requires i < |chroms| && j <= |chroms|
    ensures |UpperRow(chroms, mode, i, j)| == if j <= i then 0 else j - i - (if mode == Inter then 1 else 0)
    decreases j
  {
    if j > i {
      UpperRowLength(chroms, mode, i, j - 1);
    }
  }

  /** The number of kept pairs in the first `i` rows of an `n`-column
      triangle: row `a` holds `n - a` pairs, one fewer without the diagonal. */
  function RowWidths(n: nat, i: nat, inter: bool): int
    decreases i
  {
    if i == 0 then 0 else RowWidths(n, i - 1, inter) + (n - (i - 1)) - (if inter then 1 else 0)
  }

  lemma {:induction false} UpperLength(chroms: seq<string>, mode: Mode, i: nat)
    requires i <= |chroms|
    ensures |Upper(chroms, mode, i)| == RowWidths(|chroms|, i, mode == Inter)
    decreases i
  {
    if i > 0 {
      var prev := Upper(chroms, mode, i - 1);
      var row := UpperRow(chroms, mode, i - 1, |chroms|);
      assert Upper(chroms, mode, i) == prev + row;
      UpperLength(chroms, mode, i - 1);
      UpperRowLength(chroms, mode, i - 1, |chroms|);
    }
  }

  /** The closed form of the triangle count. */
  lemma {:induction false} RowWidthsClosed(n: nat, i: nat, inter: bool)
    ensures 2 * RowWidths(n, i, inter) == i * (2 * n - i + 1) - (if inter then 2 * i else 0)
    decreases i
  {
    if i > 0 {
      RowWidthsClosed(n, i - 1, inter);
      assert i * (2 * n - i + 1) == (i - 1) * (2 * n - (i - 1) + 1) + 2 * (n - (i - 1));
    }
  }

  /** For a list without repeats of `n` chromosomes the enumeration is the
      upper triangle row by row: `n(n+1)/2` pairs in `all` mode and
      `n(n-1)/2` in `inter` mode. */
  lemma EnumerateDistinct(chroms: seq<string>, mode: Mode)
    requires NoDup(chroms) && mode != Intra
    ensures EnumeratePairs(chroms, mode) == Upper(chroms, mode, |chroms|)
    ensures mode == All ==> 2 * |EnumeratePairs(chroms, mode)| == |chroms| * (|chroms| + 1)
    ensures mode == Inter ==> 2 * |EnumeratePairs(chroms, mode)| == |chroms| * (|chroms| - 1)
  {
    VisitRowsIsUpper(chroms, mode, 0, [], {});
    UpperLength(chroms, mode, |chroms|);
    RowWidthsClosed(|chroms|, |chroms|, mode == Inter);
  }

  // ---------------------------------------------------------------------------
  // names

  /** `name[3:] if name.startswith("chr") else name`. */
  function StripChr(name: string): (r: string)
    ensures StartsWith(name, "chr") ==> "chr" + r == name
    ensures !StartsWith(name, "chr") ==> r == name
    ensures forall i :: 0 <= i < |r| ==> r[i] in name
  {
    if StartsWith(name, "chr") then
      assert name == name[..3] + name[3..];
      name[3..]
    else name
  }

  /** Removing a `chr` prefix adds no separator. */
  lemma StripChrUnseparated(name: string)
    requires '_' !in name
    ensures '_' !in StripChr(name)
  {
  }

  /** The job name: `--job-name` when it is non-empty, otherwise the cell
      line (with `_` written `-`), the mode, the data kind, the normalisation
      and the bin size, joined by `_`; when none of the last three holds a
      `_`, the default name splits back into exactly those five parts. */
  function JobName(jobArg: string, cellLine: string, mode: Mode, data: string, norm: string, binSize: string)
    : (r: string)
    ensures |jobArg| > 0 ==> r == jobArg
    ensures |jobArg| == 0 ==>
      r == Replace(cellLine, '_', '-') + ['_'] + (ModeName(mode) + ['_'] + (data + ['_'] + (norm + ['_'] + binSize)))
    ensures |jobArg| == 0 && '_' !in data && '_' !in norm && '_' !in binSize ==>
      Split(r, '_') == [Replace(cellLine, '_', '-'), ModeName(mode), data, norm, binSize]
  {
    var parts := [Replace(cellLine, '_', '-'), ModeName(mode), data, norm, binSize];
    if |jobArg| == 0 then
      JoinFive(parts[0], parts[1], parts[2], parts[3], parts[4], '_');
      if '_' !in data && '_' !in norm && '_' !in binSize then
        SplitJoin(parts, '_');
        Join(parts, '_')
      else Join(parts, '_')
    else jobArg
  }

  /** The dump file of one pair: the cell line with every `_` written `-`,
      the two chromosome names without their `chr` prefix, the bin size and
      the normalisation. The cell line adds no separator to the name. */
  function OutputPath(cellLine: string, chr1: string, chr2: string, binSize: string, norm: string)
    : (r: string)
    ensures '_' !in Replace(cellLine, '_', '-')
    ensures StartsWith(r, Replace(cellLine, '_', '-') + "_")
    ensures EndsWith(r, norm + ".txt")
  {
    DumpFileName(DumpName(Replace(cellLine, '_', '-'), StripChr(chr1), StripChr(chr2), binSize, norm))
  }

  /** One `juicebox dump` command: the `.hic` file it reads, the chromosomes
      as listed, and the file it writes. */
  datatype Dump = Dump(source: string, chr1: string, chr2: string, outputPath: string)

  /** The dump commands of the script, one per enumerated pair, in order,
      each reading the cell line's file in the source table `sources`. */
  function DumpCommands(sources: map<string, string>, cellLine: string, mode: Mode, binSize: string, norm: string)
    : (r: seq<Dump>)
    requires cellLine in CellLineChromosomes && cellLine in sources
    ensures var pairs := EnumeratePairs(CellLineChromosomes[cellLine], mode);
      |r| == |pairs| && forall k :: 0 <= k < |r| ==> r[k].chr1 == pairs[k].0 && r[k].chr2 == pairs[k].1
    ensures forall k :: 0 <= k < |r| ==> r[k].outputPath == OutputPath(cellLine, r[k].chr1, r[k].chr2, binSize, norm)
    ensures forall k :: 0 <= k < |r| ==> r[k].source == sources[cellLine]
  {
    var pairs := EnumeratePairs(CellLineChromosomes[cellLine], mode);
    seq(|pairs|, k requires 0 <= k < |pairs| =>
      Dump(sources[cellLine], pairs[k].0, pairs[k].1, OutputPath(cellLine, pairs[k].0, pairs[k].1, binSize, norm)))
  }

  /** The script as listed and the corrected one issue the same commands for
      every cell line but `rudan15_dog2`; for that one every command of the
      listed script reads the first dog replicate's file, and every command
      of the corrected one reads the second's. */
  lemma DumpCommandsAsWrittenAndCorrected(cellLine: string, mode: Mode, binSize: string, norm: string)
    requires cellLine in CellLineChromosomes
    ensures cellLine in CellLineSourcesAsWritten && cellLine in CellLineSources
    ensures cellLine != "rudan15_dog2" ==>
      DumpCommands(CellLineSourcesAsWritten, cellLine, mode, binSize, norm)
        == DumpCommands(CellLineSources, cellLine, mode, binSize, norm)
    ensures cellLine == "rudan15_dog2" ==>
      var listed := DumpCommands(CellLineSourcesAsWritten, cellLine, mode, binSize, norm);
      var corrected := DumpCommands(CellLineSources, cellLine, mode, binSize, norm);
      && |listed| == |corrected|
      && (forall k :: 0 <= k < |listed| ==>
            && listed[k].source == CellLineSourcesAsWritten["rudan15_dog1"]
            && corrected[k].source != listed[k].source
            && corrected[k].chr1 == listed[k].chr1 && corrected[k].chr2 == listed[k].chr2
            && corrected[k].outputPath == listed[k].outputPath)
  {
    CellLineSourcesCover();
    DogReplicatesShareSourceAsWritten();
    var listed := DumpCommands(CellLineSourcesAsWritten, cellLine, mode, binSize, norm);
    var corrected := DumpCommands(CellLineSources, cellLine, mode, binSize, norm);
    if cellLine != "rudan15_dog2" {
      assert CellLineSources[cellLine] == CellLineSourcesAsWritten[cellLine];
      assert forall k :: 0 <= k < |listed| ==> listed[k] == corrected[k];
    }
  }
}
