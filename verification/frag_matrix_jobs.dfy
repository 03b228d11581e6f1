/** The batch script that writes one `frag_matrix` job file per contact dump
    found in a directory: the selection of the dumps in the listing, the
    unpack of each name into its five fields, the `inter`/`intra` filter, and
    the names of the job file and of the job. */
module FragMatrixJobs {
  import opened Results
  import opened Strings
  import opened DumpNames
  import opened ExportJobs

  // ---------------------------------------------------------------------------
  // selection

  /** A listing entry is taken for a dump when it ends with `.txt` and has
      more than four `_`-separated fields. */
  function IsHicExport(f: string): (r: bool)
    ensures r ==> BaseName(f) + ".txt" == f
    ensures r ==> (ParseDumpName(f).Ok? <==> |Split(f, '_')| == 5)
  {
    EndsWith(f, ".txt") && |Split(f, '_')| > 4
  }

  /** The selected entries of a listing, in listing order. */
  function HicExports(listing: seq<string>): (r: seq<string>)
    ensures forall f :: f in r <==> f in listing && IsHicExport(f)
    decreases |listing|
  {
    if |listing| == 0 then []
    else
      var init := listing[..|listing| - 1];
      var last := listing[|listing| - 1];
      assert listing == init + [last];
      var r := HicExports(init);
      if IsHicExport(last) then r + [last] else r
  }

  /** Selection neither drops nor repeats a selected entry: it occurs as
      often as in the listing. */
  lemma {:induction false} HicExportsCount(listing: seq<string>, f: string)
    ensures multiset(HicExports(listing))[f] == if IsHicExport(f) then multiset(listing)[f] else 0
    decreases |listing|
  {
    if |listing| > 0 {
      var init, last := listing[..|listing| - 1], listing[|listing| - 1];
      assert listing == init + [last];
      HicExportsCount(init, f);
    }
  }

  /** Selection keeps the listing order: the selection of two listings one
      after the other is the two selections one after the other. */
  lemma {:induction false} HicExportsAppend(a: seq<string>, b: seq<string>)
    ensures HicExports(a + b) == HicExports(a) + HicExports(b)
    decreases |b|
  {
    if |b| > 0 {
      var b', last := b[..|b| - 1], b[|b| - 1];
      var ab := a + b;
      assert ab[..|ab| - 1] == a + b';
      assert ab[|ab| - 1] == last;
      HicExportsAppend(a, b');
      var tail := if IsHicExport(last) then [last] else [];
      assert HicExports(ab) == HicExports(a + b') + tail;
      assert HicExports(b) == HicExports(b') + tail;
    } else {
      assert a + b == a;
    }
  }

  /** A selected name fails the five-way unpack exactly when it has more than
      five fields. */
  lemma SelectedUnpackFails(f: string)
    requires IsHicExport(f)
    ensures ParseDumpName(f).Err? <==> |Split(f, '_')| > 5
  {
  }

  // ---------------------------------------------------------------------------
  // one job file

  /** The `--chromosomes` filter: `inter` skips a chromosome paired with
      itself, `intra` skips two different chromosomes, `all` skips nothing. */
  function Keep(mode: Mode, d: DumpName): (r: bool)
    ensures mode == All ==> r
    ensures mode == Inter ==> (r <==> d.chr1 != d.chr2)
    ensures mode == Intra ==> (r <==> d.chr1 == d.chr2)
  {
    !(d.chr1 == d.chr2 && mode == Inter) && !(d.chr1 != d.chr2 && mode == Intra)
  }

  /** `hic_file[:-4]`: the name without its last four characters, empty when
      it is shorter. */
  function BaseName(f: string): (r: string)
    ensures EndsWith(f, ".txt") ==> r + ".txt" == f
    ensures |f| < 4 ==> r == ""
    ensures |f| >= 4 ==> |r| == |f| - 4 && StartsWith(f, r)
  {
    if |f| >= 4 then
      assert f == f[..|f| - 4] + f[|f| - 4..];
      f[..|f| - 4]
    else ""
  }

  /** `{prefix}{chr1}_{chr2}.sh`. */
  function ShFileName(prefix: string, chr1: string, chr2: string): (r: string)
    ensures StartsWith(r, prefix) && EndsWith(r, ".sh")
  {
    var r := prefix + chr1 + "_" + chr2 + ".sh";
    assert r[..|prefix|] == prefix;
    assert r[|r| - 3..] == ".sh";
    r
  }

  /** The job file name tells the chromosome pair apart: two pairs of
      separator-free names give the same name only when they are the same
      pair. The resolution and the normalisation play no part, so two dumps
      of one pair at two resolutions write the same job file. */
  lemma ShFileNameDeterminesPair(prefix: string, a: string, b: string, c: string, d: string)
    requires '_' !in a && '_' !in b && '_' !in c && '_' !in d
    requires ShFileName(prefix, a, b) == ShFileName(prefix, c, d)
    ensures a == c && b == d
  {
    var s := ShFileName(prefix, a, b);
    var core1 := a + "_" + b;
    var core2 := c + "_" + d;
    assert s == prefix + core1 + ".sh";
    assert s == prefix + core2 + ".sh";
    assert core1 == s[|prefix|..|s| - 3];
    assert core2 == s[|prefix|..|s| - 3];
    SplitJoin([a, b], '_');
    SplitJoin([c, d], '_');
    assert Join([a, b], '_') == core1;
    assert Join([c, d], '_') == core2;
  }

  /** One job file: the dump it reads, the fields of its name (the
      normalisation without `.txt`), the name of the file written, and the
      job name used for the scheduler and its logs. */
  datatype ShJob = ShJob(hicFile: string, name: DumpName, shFileName: string, baseName: string)

  function Job(hicFile: string, d: DumpName, prefix: string): (j: ShJob)
    ensures j.hicFile == hicFile && j.name == d
    ensures EndsWith(hicFile, ".txt") ==> j.baseName + ".txt" == hicFile
    ensures StartsWith(j.shFileName, prefix) && EndsWith(j.shFileName, ".sh")
  {
    ShJob(hicFile, d, ShFileName(prefix, d.chr1, d.chr2), BaseName(hicFile))
  }

  /** The job of a selected dump names the dump without `.txt`, and that name
      is the file name of the dump's fields. */
  lemma JobOfSelectedDump(f: string, prefix: string)
    requires IsHicExport(f) && ParseDumpName(f).Ok?
    ensures var j := Job(f, ParseDumpName(f).value, prefix);
      j.baseName + ".txt" == f && DumpFileName(j.name) == f
  {
    DumpFileNameOfParse(f);
  }

  // ---------------------------------------------------------------------------
  // the loop over the selected dumps

  /** What the loop leaves behind: the job-file writes, in order, and the
      exception that stopped it, if any. Writes before the exception stay
      written. Two writes of one job file name are two entries here; on disk
      the later replaces the earlier. */
  datatype Plan = Plan(written: seq<ShJob>, failure: Option<Error>)

  /** The index of the first dump whose name does not unpack, or `|files|`. */
  function FirstFailure(files: seq<string>): (k: nat)
    ensures k <= |files|
    ensures forall j :: 0 <= j < k ==> ParseDumpName(files[j]).Ok?
    ensures k < |files| ==> ParseDumpName(files[k]).Err?
    decreases |files|
  {
    if |files| == 0 then 0
    else if ParseDumpName(files[0]).Err? then 0
    else 1 + FirstFailure(files[1..])
  }

  /** Every name in `files` unpacks, stated one dump at a time. */
  predicate AllUnpack(files: seq<string>)
    decreases |files|
  {
    |files| == 0 || (ParseDumpName(files[0]).Ok? && AllUnpack(files[1..]))
  }

  lemma {:induction false} AllUnpackEvery(files: seq<string>)
    ensures AllUnpack(files) <==> forall k :: 0 <= k < |files| ==> ParseDumpName(files[k]).Ok?
    decreases |files|
  {
    if |files| > 0 {
      AllUnpackEvery(files[1..]);
      assert forall k :: 1 <= k < |files| ==> files[k] == files[1..][k - 1];
    }
  }

  /** The loop over the selected dumps, with the job name built for every
      kept dump. */
  function PlanShFiles(files: seq<string>, mode: Mode, prefix: string): (r: Plan)
    ensures |r.written| <= |files|
    ensures r.failure.None? <==> FirstFailure(files) == |files|
    ensures r.failure.Some? ==> r.failure.value.UnpackMismatch?
    decreases |files|
  {
    if |files| == 0 then Plan([], None)
    else match ParseDumpName(files[0])
      case Err(e) => Plan([], Some(e))
      case Ok(d) =>
        var rest := PlanShFiles(files[1..], mode, prefix);
        if Keep(mode, d) then Plan([Job(files[0], d, prefix)] + rest.written, rest.failure)
        else rest
  }

  /** The job files one dump whose name unpacks adds: its job when the mode
      keeps it, nothing otherwise. */
  function JobsFor(f: string, mode: Mode, prefix: string): seq<ShJob>
    requires ParseDumpName(f).Ok?
  {
    var d := ParseDumpName(f).value;
    if Keep(mode, d) then [Job(f, d, prefix)] else []
  }

  /** One pass of the loop over a dump whose name unpacks. */
  lemma PlanShFilesCons(files: seq<string>, mode: Mode, prefix: string)
    requires |files| > 0 && ParseDumpName(files[0]).Ok?
    ensures PlanShFiles(files, mode, prefix)
      == Plan(JobsFor(files[0], mode, prefix) + PlanShFiles(files[1..], mode, prefix).written,
              PlanShFiles(files[1..], mode, prefix).failure)
  {
  }

  /** A job written for dump `j.hicFile`: its name unpacks to `j.name`, the
      mode keeps it, and the job file and job names are built from it. */
  ghost predicate JobOf(j: ShJob, mode: Mode, prefix: string) {
    && ParseDumpName(j.hicFile) == Ok(j.name)
    && Keep(mode, j.name)
    && j == Job(j.hicFile, j.name, prefix)
  }

  /** The loop fails exactly when some name does not unpack, and then with
      the unpack error of the first such name. */
  lemma {:induction false} PlanShFilesFailure(files: seq<string>, mode: Mode, prefix: string)
    ensures var r := PlanShFiles(files, mode, prefix);
      && (r.failure.None? <==> AllUnpack(files))
      && (r.failure.Some? ==> (
            var k := FirstFailure(files);
            k < |files| && r.failure.value == UnpackMismatch(files[k], |Split(files[k], '_')|)))
    decreases |files|
  {
    if |files| > 0 && ParseDumpName(files[0]).Ok? {
      var tail := files[1..];
      PlanShFilesFailure(tail, mode, prefix);
      if FirstFailure(tail) < |tail| {
        assert files[1 + FirstFailure(tail)] == tail[FirstFailure(tail)];
      }
    }
  }

  /** Every job file comes from a dump before the first name that does not
      unpack, and is the job of a dump the mode keeps. */
  lemma {:induction false} PlanShFilesWritten(files: seq<string>, mode: Mode, prefix: string)
    ensures var r := PlanShFiles(files, mode, prefix);
      && |r.written| <= FirstFailure(files)
      && forall i :: 0 <= i < |r.written| ==>
           r.written[i].hicFile in files[..FirstFailure(files)] && JobOf(r.written[i], mode, prefix)
    decreases |files|
  {
    if |files| > 0 && ParseDumpName(files[0]).Ok? {
      var tail := files[1..];
      PlanShFilesWritten(tail, mode, prefix);
      PlanShFilesCons(files, mode, prefix);
      SliceCons(files, FirstFailure(files));
    }
  }

  /** Every dump before the first name that does not unpack, which the mode
      keeps, has its job among `written`. */
  ghost predicate JobsDue(files: seq<string>, mode: Mode, prefix: string, written: seq<ShJob>) {
    forall k :: 0 <= k < FirstFailure(files) && Keep(mode, ParseDumpName(files[k]).value) ==>
      Job(files[k], ParseDumpName(files[k]).value, prefix) in written
  }

  /** Every dump before the first failing name that the mode keeps gets its job. */
  lemma {:induction false} PlanShFilesComplete(files: seq<string>, mode: Mode, prefix: string)
    ensures JobsDue(files, mode, prefix, PlanShFiles(files, mode, prefix).written)
    decreases |files|
  {
    if |files| > 0 && ParseDumpName(files[0]).Ok? {
      var tail := files[1..];
      var written := PlanShFiles(files, mode, prefix).written;
      var rest := PlanShFiles(tail, mode, prefix).written;
      PlanShFilesComplete(tail, mode, prefix);
      PlanShFilesCons(files, mode, prefix);
      assert written == JobsFor(files[0], mode, prefix) + rest;
      forall k | 0 <= k < FirstFailure(files) && Keep(mode, ParseDumpName(files[k]).value)
        ensures Job(files[k], ParseDumpName(files[k]).value, prefix) in written
      {
        if k > 0 {
          assert files[k] == tail[k - 1];
          assert Job(files[k], ParseDumpName(files[k]).value, prefix) in rest;
        }
      }
    }
  }

  /** What the loop does: a dump whose name does not have exactly five fields
      stops it with the unpack error; before that, a dump the mode skips
      writes nothing and every other dump writes its job file, named after
      the dump, and nothing else is written. */
  lemma PlanShFilesOutcome(files: seq<string>, mode: Mode, prefix: string)
    ensures var r := PlanShFiles(files, mode, prefix);
      && (r.failure.None? <==> forall k :: 0 <= k < |files| ==> ParseDumpName(files[k]).Ok?)
      && (r.failure.Some? ==> (
            var k := FirstFailure(files);
            k < |files| && r.failure.value == UnpackMismatch(files[k], |Split(files[k], '_')|)))
      && |r.written| <= FirstFailure(files)
      && (forall i :: 0 <= i < |r.written| ==>
            r.written[i].hicFile in files[..FirstFailure(files)] && JobOf(r.written[i], mode, prefix))
      && JobsDue(files, mode, prefix, r.written)
  {
    PlanShFilesFailure(files, mode, prefix);
    PlanShFilesWritten(files, mode, prefix);
    PlanShFilesComplete(files, mode, prefix);
    AllUnpackEvery(files);
  }

  /** `create_sh_frag_matrix_file.py` on a directory listing: the selection,
      then the loop. A listing entry that is not selected is never unpacked. */
  function CreateShFiles(listing: seq<string>, mode: Mode, prefix: string): (r: Plan)
    ensures r.failure.None? <==> forall f :: f in listing && IsHicExport(f) ==> ParseDumpName(f).Ok?
    ensures r.failure.Some? ==>
      var files := HicExports(listing);
      var k := FirstFailure(files);
      k < |files| && r.failure.value == UnpackMismatch(files[k], |Split(files[k], '_')|)
    ensures JobsDue(HicExports(listing), mode, prefix, r.written)
    ensures forall i :: 0 <= i < |r.written| ==> (
      && r.written[i].hicFile in listing
      && IsHicExport(r.written[i].hicFile)
      && Keep(mode, r.written[i].name)
      && r.written[i].baseName + ".txt" == r.written[i].hicFile
      && DumpFileName(r.written[i].name) == r.written[i].hicFile)
  {
    var files := HicExports(listing);
    var r := PlanShFiles(files, mode, prefix);
    PlanShFilesOutcome(files, mode, prefix);
    forall i | 0 <= i < |r.written|
      ensures DumpFileName(r.written[i].name) == r.written[i].hicFile
    {
      assert r.written[i].hicFile in files;
      DumpFileNameOfParse(r.written[i].hicFile);
    }
    r
  }

  /** The loop over two runs of dumps, the first without a malformed name, is
      the loop over the first run followed by the loop over the second: the
      job files come in dump order. */
  lemma {:induction false} PlanAppend(a: seq<string>, b: seq<string>, mode: Mode, prefix: string)
    requires AllUnpack(a)
    ensures PlanShFiles(a + b, mode, prefix)
      == Plan(PlanShFiles(a, mode, prefix).written + PlanShFiles(b, mode, prefix).written,
              PlanShFiles(b, mode, prefix).failure)
    decreases |a|
  {
    if |a| > 0 {
      var ab := a + b;
      assert ab[0] == a[0] && ab[1..] == a[1..] + b;
      PlanAppend(a[1..], b, mode, prefix);
      PlanShFilesCons(ab, mode, prefix);
      PlanShFilesCons(a, mode, prefix);
      var h := JobsFor(a[0], mode, prefix);
      var rest := PlanShFiles(a[1..], mode, prefix).written;
      var tail := PlanShFiles(b, mode, prefix).written;
      AppendAssoc(h, rest, tail);
    } else {
      assert a + b == b;
    }
  }

  /** A name that does not unpack stops the loop: the dumps after it are
      never looked at, and the files written before it stay written. */
  lemma PlanStopsAtFailure(a: seq<string>, f: string, b: seq<string>, mode: Mode, prefix: string)
    requires forall k :: 0 <= k < |a| ==> ParseDumpName(a[k]).Ok?
    requires ParseDumpName(f).Err?
    ensures PlanShFiles(a + [f] + b, mode, prefix)
      == Plan(PlanShFiles(a, mode, prefix).written, Some(ParseDumpName(f).error))
  {
    AllUnpackEvery(a);
    PlanAppend(a, [f] + b, mode, prefix);
    assert a + [f] + b == a + ([f] + b);
  }

  /** In `all` mode, when every name unpacks, there is one job-file write per
      dump, in dump order. */
  lemma {:induction false} PlanAllWritesEveryDump(files: seq<string>, prefix: string)
    requires forall k :: 0 <= k < |files| ==> ParseDumpName(files[k]).Ok?
    ensures var r := PlanShFiles(files, All, prefix);
      && r.failure == None
      && |r.written| == |files|
      && forall k :: 0 <= k < |files| ==> r.written[k].hicFile == files[k]
    decreases |files|
  {
    if |files| > 0 {
      PlanAllWritesEveryDump(files[1..], prefix);
    }
  }

  /** When every name unpacks, `inter` and `intra` split the dumps between
      them: the job of each dump is written by exactly one of the two modes. */
  lemma PlanModesPartition(files: seq<string>, prefix: string)
    requires forall k :: 0 <= k < |files| ==> ParseDumpName(files[k]).Ok?
    ensures forall k :: 0 <= k < |files| ==>
      var j := Job(files[k], ParseDumpName(files[k]).value, prefix);
      (j in PlanShFiles(files, Inter, prefix).written) != (j in PlanShFiles(files, Intra, prefix).written)
    ensures |PlanShFiles(files, Inter, prefix).written| + |PlanShFiles(files, Intra, prefix).written| == |files|
  {
    PlanModesCount(files, prefix);
    var inter := PlanShFiles(files, Inter, prefix).written;
    var intra := PlanShFiles(files, Intra, prefix).written;
    PlanShFilesComplete(files, Inter, prefix);
    PlanShFilesComplete(files, Intra, prefix);
    assert FirstFailure(files) == |files|;
    forall k | 0 <= k < |files|
      ensures var j := Job(files[k], ParseDumpName(files[k]).value, prefix); (j in inter) != (j in intra)
    {
      var j := Job(files[k], ParseDumpName(files[k]).value, prefix);
      if j in inter {
        WrittenOnlyIfKept(files, Inter, prefix, j);
      }
      if j in intra {
        WrittenOnlyIfKept(files, Intra, prefix, j);
      }
    }
  }

  /** A job among the writes of the loop is kept by the mode. */
  lemma WrittenOnlyIfKept(files: seq<string>, mode: Mode, prefix: string, j: ShJob)
    requires j in PlanShFiles(files, mode, prefix).written
    ensures Keep(mode, j.name)
  {
    var written := PlanShFiles(files, mode, prefix).written;
    PlanShFilesWritten(files, mode, prefix);
    var i :| 0 <= i < |written| && written[i] == j;
    assert JobOf(written[i], mode, prefix);
  }

  /** The two modes together make one write per dump. */
  lemma {:induction false} PlanModesCount(files: seq<string>, prefix: string)
    requires forall k :: 0 <= k < |files| ==> ParseDumpName(files[k]).Ok?
    ensures |PlanShFiles(files, Inter, prefix).written| + |PlanShFiles(files, Intra, prefix).written| == |files|
    decreases |files|
  {
    if |files| > 0 {
      PlanModesCount(files[1..], prefix);
    }
  }

  // ---------------------------------------------------------------------------
  // the loop as written

  /** The loop as the script has it: before a kept dump's job file is opened,
      the name of the contacts file is formatted from `args.bin_size`, an
      argument the script never defines, so the first kept dump raises. */
  function PlanAsWritten(files: seq<string>, mode: Mode, prefix: string): (r: Plan)
    ensures r.written == []
    ensures r.failure.None? <==>
      forall k :: 0 <= k < |files| ==> ParseDumpName(files[k]).Ok? && !Keep(mode, ParseDumpName(files[k]).value)
    decreases |files|
  {
    if |files| == 0 then Plan([], None)
    else match ParseDumpName(files[0])
      case Err(e) => Plan([], Some(e))
      case Ok(d) =>
        if Keep(mode, d) then Plan([], Some(UndefinedArgument("bin_size")))
        else
          assert forall k :: 1 <= k < |files| ==> files[k] == files[1..][k - 1];
          PlanAsWritten(files[1..], mode, prefix)
  }

  /** Wherever the intended loop writes a job file, the loop as written stops
      on the undefined argument and writes none. */
  lemma {:induction false} AsWrittenFailsWhereJobsAreDue(files: seq<string>, mode: Mode, prefix: string)
    requires |PlanShFiles(files, mode, prefix).written| > 0
    ensures PlanAsWritten(files, mode, prefix) == Plan([], Some(UndefinedArgument("bin_size")))
    decreases |files|
  {
    var d := ParseDumpName(files[0]).value;
    if !Keep(mode, d) {
      AsWrittenFailsWhereJobsAreDue(files[1..], mode, prefix);
    }
  }

  /** A directory holding one dump, say `a_1_1_10000_KR.txt`, shows the
      difference in `all` mode: the intended loop writes its job file ... */
  lemma IntendedSingleDump(d: DumpName, prefix: string)
    requires Unseparated(d)
    ensures PlanShFiles([DumpFileName(d)], All, prefix)
      == Plan([ShJob(DumpFileName(d), d, prefix + d.chr1 + "_" + d.chr2 + ".sh", DumpFileName(d)[..|DumpFileName(d)| - 4])], None)
  {
    var f := DumpFileName(d);
    ParseDumpFileName(d);
    var files: seq<string> := [f];
    assert files[1..] == [];
    assert BaseName(f) == f[..|f| - 4];
  }

  /** ... and the loop as written raises on it. */
  lemma AsWrittenSingleDump(d: DumpName, prefix: string)
    requires Unseparated(d)
    ensures PlanAsWritten([DumpFileName(d)], All, prefix) == Plan([], Some(UndefinedArgument("bin_size")))
  {
    ParseDumpFileName(d);
  }

  // ---------------------------------------------------------------------------
  // the names written by the export script

  /** A field with a separator in it splits into at least two fields. */
  lemma SplitSeparated(s: string)
    requires '_' in s
    ensures |Split(s, '_')| >= 2
  {
    JoinSplit(s, '_');
  }

  /** The fields of a dump file name whose first four fields hold no
      separator: those four, then the fields of the normalisation with `.txt`. */
  lemma SplitDumpFileName(d: DumpName)
    requires '_' !in d.cellLine && '_' !in d.chr1 && '_' !in d.chr2 && '_' !in d.resolution
    ensures Split(DumpFileName(d), '_') == [d.cellLine, d.chr1, d.chr2, d.resolution] + Split(d.correction + ".txt", '_')
  {
    var t4 := d.correction + ".txt";
    var t3 := d.resolution + ['_'] + t4;
    var t2 := d.chr2 + ['_'] + t3;
    var t1 := d.chr1 + ['_'] + t2;
    DumpFileNameSpelled(d);
    var rest := Split(t4, '_');
    SplitAfterField(d.resolution, '_', t4);
    SplitAfterField(d.chr2, '_', t3);
    SplitAfterField(d.chr1, '_', t2);
    SplitAfterField(d.cellLine, '_', t1);
    ConsFour(d.cellLine, d.chr1, d.chr2, d.resolution, rest);
  }

  lemma ConsFour<T>(a: T, b: T, c: T, e: T, rest: seq<T>)
    ensures [a] + ([b] + ([c] + ([e] + rest))) == [a, b, c, e] + rest
  {
  }

  /** Round trip between the two scripts: every dump file the export script
      names is selected by the job script, and when the chromosome names, the
      bin size and the normalisation hold no `_` it unpacks into the fields it
      was built from. */
  lemma ExportNameIsReadBack(cellLine: string, chr1: string, chr2: string, binSize: string, norm: string)
    requires '_' !in chr1 && '_' !in chr2 && '_' !in binSize && '_' !in norm
    ensures IsHicExport(OutputPath(cellLine, chr1, chr2, binSize, norm))
    ensures ParseDumpName(OutputPath(cellLine, chr1, chr2, binSize, norm))
      == Ok(DumpName(Replace(cellLine, '_', '-'), StripChr(chr1), StripChr(chr2), binSize, norm))
  {
    var d := DumpName(Replace(cellLine, '_', '-'), StripChr(chr1), StripChr(chr2), binSize, norm);
    StripChrUnseparated(chr1);
    StripChrUnseparated(chr2);
    ParseDumpFileName(d);
  }

  /** A normalisation with a `_` in it, such as `VC_SQRT`, gives a dump file
      name that is selected but has more than five fields, so the unpack of
      the job script fails on it. */
  lemma SeparatedNormFailsUnpack(cellLine: string, chr1: string, chr2: string, binSize: string, norm: string)
    requires '_' !in chr1 && '_' !in chr2 && '_' !in binSize && '_' in norm
    ensures IsHicExport(OutputPath(cellLine, chr1, chr2, binSize, norm))
    ensures |Split(OutputPath(cellLine, chr1, chr2, binSize, norm), '_')| > 5
    ensures ParseDumpName(OutputPath(cellLine, chr1, chr2, binSize, norm)).Err?
  {
    var d := DumpName(Replace(cellLine, '_', '-'), StripChr(chr1), StripChr(chr2), binSize, norm);
    StripChrUnseparated(chr1);
    StripChrUnseparated(chr2);
    SplitDumpFileName(d);
    assert '_' in norm + ".txt" by {
      var i :| 0 <= i < |norm| && norm[i] == '_';
      assert (norm + ".txt")[i] == '_';
    }
    SplitSeparated(norm + ".txt");
  }

  lemma SplitVcSqrt()
    ensures Split("VC_SQRT" + ".txt", '_') == ["VC", "SQRT.txt"]
  {
    assert "VC_SQRT" + ".txt" == "VC" + ['_'] + "SQRT.txt";
    SplitAfterField("VC", '_', "SQRT.txt");
    assert '_' !in "SQRT.txt";
    SplitWithoutSeparator("SQRT.txt", '_');
  }

  /** The `VC_SQRT` choice of the export script: its dumps have six fields. */
  lemma VcSqrtDumpHasSixFields(cellLine: string, chr1: string, chr2: string, binSize: string)
    requires '_' !in chr1 && '_' !in chr2 && '_' !in binSize
    ensures |Split(OutputPath(cellLine, chr1, chr2, binSize, "VC_SQRT"), '_')| == 6
    ensures ParseDumpName(OutputPath(cellLine, chr1, chr2, binSize, "VC_SQRT"))
      == Err(UnpackMismatch(OutputPath(cellLine, chr1, chr2, binSize, "VC_SQRT"), 6))
  {
    var d := DumpName(Replace(cellLine, '_', '-'), StripChr(chr1), StripChr(chr2), binSize, "VC_SQRT");
    StripChrUnseparated(chr1);
    StripChrUnseparated(chr2);
    SplitDumpFileName(d);
    SplitVcSqrt();
  }
}
