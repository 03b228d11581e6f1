/** The name of one chromosome-pair dump,
    `{cell_line}_{chr1}_{chr2}_{resolution}_{correction}.txt`, as the export
    script writes it and the fragment scripts read it back. */
module DumpNames {
  import opened Results
  import opened Strings

  datatype DumpName = DumpName(cellLine: string, chr1: string, chr2: string, resolution: string, correction: string)

  /** No field of the name contains the separator `_`. */
  predicate Unseparated(d: DumpName) {
    '_' !in d.cellLine && '_' !in d.chr1 && '_' !in d.chr2 && '_' !in d.resolution && '_' !in d.correction
  }

  function Fields(d: DumpName): seq<string> {
    [d.cellLine, d.chr1, d.chr2, d.resolution, d.correction + ".txt"]
  }

  lemma EndsWithTransitive(s: string, t: string, u: string)
    requires EndsWith(s, t) && EndsWith(t, u)
    ensures EndsWith(s, u)
  {
    assert s[|s| - |u|..] == s[|s| - |t|..][|t| - |u|..];
  }

  /** The dump file name: the five fields joined by `_`, then `.txt`. It
      starts with the cell line and a separator and ends with `.txt`. */
  function DumpFileName(d: DumpName): (f: string)
    ensures StartsWith(f, d.cellLine + "_")
    ensures EndsWith(f, d.correction + ".txt") && EndsWith(f, ".txt")
  {
    var fields := Fields(d);
    JoinEndsWithLast(fields, '_');
    assert EndsWith(d.correction + ".txt", ".txt");
    EndsWithTransitive(Join(fields, '_'), d.correction + ".txt", ".txt");
    assert Join(fields, '_') == d.cellLine + "_" + Join(fields[1..], '_');
    Join(fields, '_')
  }

  /** The file name spelled out field by field. */
  lemma DumpFileNameSpelled(d: DumpName)
    ensures DumpFileName(d)
      == d.cellLine + ['_'] + (d.chr1 + ['_'] + (d.chr2 + ['_'] + (d.resolution + ['_'] + (d.correction + ".txt"))))
  {
    JoinFive(d.cellLine, d.chr1, d.chr2, d.resolution, d.correction + ".txt", '_');
  }

  /** `correction[:-4] if correction.endswith(".txt") else correction`. */
  function StripTxt(s: string): (r: string)
    ensures EndsWith(s, ".txt") ==> r + ".txt" == s
    ensures !EndsWith(s, ".txt") ==> r == s
  {
    if EndsWith(s, ".txt") then
      assert s == s[..|s| - 4] + s[|s| - 4..];
      s[..|s| - 4]
    else s
  }

  /** `cell_line, chr1, chr2, resolution, correction = name.split("_")`
      followed by the removal of `.txt` from the correction: the unpack fails
      unless the name has exactly five `_`-separated fields. */
  function ParseDumpName(name: string): (r: Result<DumpName>)
    ensures r.Ok? <==> |Split(name, '_')| == 5
    ensures r.Err? ==> r.error == UnpackMismatch(name, |Split(name, '_')|)
    ensures r.Ok? ==> Unseparated(r.value)
  {
    var parts := Split(name, '_');
    if |parts| != 5 then Err(UnpackMismatch(name, |parts|))
    else
      assert '_' !in parts[4];
      assert forall i :: 0 <= i < |StripTxt(parts[4])| ==> StripTxt(parts[4])[i] == parts[4][i];
      Ok(DumpName(parts[0], parts[1], parts[2], parts[3], StripTxt(parts[4])))
  }

  /** A name ending in `.txt` has a last field ending in `.txt`: the `.txt`
      holds no separator. */
  lemma LastFieldEndsWithTxt(name: string)
    requires EndsWith(name, ".txt")
    ensures var parts := Split(name, '_'); EndsWith(parts[|parts| - 1], ".txt")
  {
    var parts := Split(name, '_');
    var last := parts[|parts| - 1];
    JoinSplit(name, '_');
    JoinEndsWithLast(parts, '_');
    if |parts| >= 2 {
      var pre := Join(parts[..|parts| - 1], '_');
      assert name == pre + ['_'] + last;
      assert name[|pre|] == '_';
      assert forall i :: |name| - 4 <= i < |name| ==> name[i] == ".txt"[i - (|name| - 4)];
      assert |pre| < |name| - 4;
    }
    assert last == name[|name| - |last|..];
    assert last[|last| - 4..] == name[|name| - 4..];
  }

  /** Round trip, name first: a listed name ending in `.txt` that unpacks is
      exactly the file name of what it unpacks to. */
  lemma DumpFileNameOfParse(name: string)
    requires EndsWith(name, ".txt") && ParseDumpName(name).Ok?
    ensures DumpFileName(ParseDumpName(name).value) == name
  {
    var parts := Split(name, '_');
    LastFieldEndsWithTxt(name);
    JoinSplit(name, '_');
    assert Fields(ParseDumpName(name).value) == parts;
  }

  /** Round trip, fields first: when no field holds a separator, the file
      name unpacks to the fields it was built from. */
  lemma ParseDumpFileName(d: DumpName)
    requires Unseparated(d)
    ensures ParseDumpName(DumpFileName(d)) == Ok(d)
  {
    var fields := Fields(d);
    assert '_' !in d.correction + ".txt";
    SplitJoin(fields, '_');
    assert StripTxt(d.correction + ".txt") == d.correction by {
      var s := d.correction + ".txt";
      assert s[|s| - 4..] == ".txt";
      assert s[..|s| - 4] == d.correction;
    }
  }
}
