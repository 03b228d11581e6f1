# Hi-C contact-dump bookkeeping, in Dafny

This project models the bookkeeping scripts around Hi-C contact dumps in the
`compbiol/HiC` processing tools. Each dump is a sparse `row  column  value`
table of contact counts between genome bins of two chromosomes. The model
covers four scripts:

- **`frag_matrix.py`** (modules `Contacts`, `FragMatrix`).
  - Loading a dump into an upper-triangular dictionary of dictionaries
    (`load_hic_data`).
  - Grouping a fragment catalog by chromosome (`get_fragments`).
- **`sparse_to_tsv.py`** (module `SparseToTsv`): `read_hic_export`, which
  turns a dump into a dense labelled matrix.
  - It tracks the coordinate extents from sentinel start values.
  - It infers the bin size as the smallest gap between distinct coordinates.
  - It adjusts the axis ranges for `ignore_empty_start` and `symmetrical`.
  - It builds the `np.arange` axis labels.
  - It writes each contact at `(r, c)` and `(c, r)`, with NaN written as 0.
- **`create_sh_export_file.py`** (modules `ExportJobs`, `DumpNames`).
  - The chromosome tables of the cell lines and their `.hic` sources.
  - The enumeration of chromosome pairs for the `inter`, `intra` and `all`
    selections.
  - The `chr` prefix stripping, the job name, and the dump file name
    `{cell_line}_{chr1}_{chr2}_{bin_size}_{norm}.txt`.
- **`create_sh_frag_matrix_file.py`** (modules `FragMatrixJobs`,
  `DumpNames`).
  - Selecting the dumps in a directory listing.
  - Unpacking each name into its five fields.
  - The `inter`/`intra` filter.
  - The job-file and job names.

Shared modules:

- `Results`: `Option`, and `Result` for Python exceptions.
- `Strings`: Python's `split`, `join`, `replace`, string `<` and `int()`.
- `Records`: converting rows in order, stopping at the first bad row.

How the model represents the scripts:

- **Values.** Contact values are floating-point numbers that the scripts
  never compute with. They are a type parameter `V`.
  - `float(text)` is the parameter `parseFloat`, which returns `None` where
    Python raises.
  - `np.isnan` is the parameter `isNaN`, and `0.0` is the parameter `zero`.
- **Rows.** Rows arrive already split into their tab-separated fields.
- **Exceptions.** An exception that aborts a script is an `Err` naming its
  cause.
- **Matrix cells.** The dense matrix is a map of the cells that were
  written. A cell that is absent still holds the initial 0.
- **Loops.** The job-file loop is a `Plan`: the writes of job files, in
  order, and the exception that stopped the loop, if any. Two writes to the
  same job file name are two entries; on disk the later one replaces the
  earlier.

## Model

| member | source | states |
|---|---|---|
| `Records.IntField` | processing/hic/frag_matrix.py:33 | `int(row[i])` fails with a missing-field error past the end of the row, fails when the text is not an integer, and otherwise yields the parsed integer |
| `Records.ParseRows` | processing/hic/frag_matrix.py:32-33 | converting the rows succeeds exactly when every row converts, keeps row order and count, and otherwise reports the first failing row, every earlier row having converted |
| `Strings.ParseInt` | processing/hic/frag_matrix.py:33 | `int()` accepts only a text holding a digit |
| `Strings.ParseShowInt` | processing/hic/frag_matrix.py:33 | `int()` reads back the decimal text of every integer, negative ones included |
| `Contacts.ParseContact` | processing/hic/frag_matrix.py:33 | a contact row is read exactly when it has at least three fields, two integer coordinates and a float value; an empty row fails on field 0 |
| `Contacts.ParseContacts` | processing/hic/sparse_to_tsv.py:18-20 | every row of a dump is read, in order, or the read fails |
| `Contacts.LastValue` | processing/hic/frag_matrix.py:32-37 | reference meaning of a later row overwriting an earlier one: a value exists exactly when some contact joins the two bins in either orientation, and it is the value of the last such contact |
| `Contacts.LastValueSymmetric` | processing/hic/frag_matrix.py:34-37 | the last value of a pair of bins does not depend on their order |
| `FragMatrix.Insert` | processing/hic/frag_matrix.py:34-37 | one insertion keeps the store upper-triangular, makes both orientations of the pair read the new value, and changes no other pair |
| `FragMatrix.StoreAll` | processing/hic/frag_matrix.py:32-37 | the loaded store is upper-triangular: every pair sits under its smaller coordinate |
| `FragMatrix.StoreAllIsLastValue` | processing/hic/frag_matrix.py:32-37 | after loading, the entry of every pair of bins is the value of the last row joining them, and absent if no row does |
| `FragMatrix.StoreAllIgnoresOrientation` | processing/hic/frag_matrix.py:34-37 | flipping any rows from `(r, c, v)` to `(c, r, v)` yields the same store |
| `FragMatrix.LoadHicData` | processing/hic/frag_matrix.py:30-38 | the load fails exactly when some row is malformed, storing nothing; otherwise every key sits under its smaller coordinate and every pair reads the last value written for it |
| `FragMatrix.ParseFragment` | processing/hic/frag_matrix.py:46 | a fragment row is read exactly when it has at least four fields with integer start and end; the name and chromosome are copied verbatim |
| `FragMatrix.Group` | processing/hic/frag_matrix.py:43-47 | the grouping has one key per chromosome of the input, and each list holds exactly that chromosome's fragments in input order |
| `FragMatrix.OnChromosomeSound` | processing/hic/frag_matrix.py:47 | every fragment filed under a chromosome comes from the input and lies on that chromosome |
| `FragMatrix.GetFragments` | processing/hic/frag_matrix.py:43-50 | the catalog fails exactly when some row is malformed; otherwise every fragment under key `k` lies on `k`, and the lists are the order-preserving grouping of the rows |
| `FragMatrix.GroupKeepsEveryFragment` | processing/hic/frag_matrix.py:45-48 | the lengths of the lists of all chromosomes add up to the number of input rows |
| `FragMatrix.GetFragmentsAsWritten` | processing/hic/frag_matrix.py:48 | as written, the call always raises: the `sum` error when every row is read, the row's error otherwise |
| `FragMatrix.GetFragmentsAsWrittenExample` | processing/hic/frag_matrix.py:48 | an empty catalog groups to an empty map as intended, but raises as written |
| `SparseToTsv.Scan` | processing/hic/sparse_to_tsv.py:13-28 | each tracked bound is the running extreme of its coordinate, started from `-1` or `10^11`: it bounds every coordinate and is the sentinel or some coordinate |
| `SparseToTsv.ScanIsExact` | processing/hic/sparse_to_tsv.py:13-28 | for a non-empty dump with coordinates in `[0, 10^11)` the bounds are the true minimum and maximum of the row ids and of the column ids |
| `SparseToTsv.SortedDistinct` | processing/hic/sparse_to_tsv.py:30 | `sorted(set(...))` is strictly increasing and has exactly the input's values |
| `SparseToTsv.MinGap` | processing/hic/sparse_to_tsv.py:31 | the minimum neighbour gap of a strictly increasing sequence is positive, no larger than any neighbour gap, and attained |
| `SparseToTsv.MinGapBoundsDifferences` | processing/hic/sparse_to_tsv.py:31-33 | the minimum neighbour gap bounds the difference of any two distinct elements |
| `SparseToTsv.AxisGap` | processing/hic/sparse_to_tsv.py:30-33 | an axis gap exists exactly when the axis has two distinct coordinates (else `min` of nothing fails); it is positive, bounds every difference and is one |
| `SparseToTsv.InferStep` | processing/hic/sparse_to_tsv.py:29-34 | inference fails, rows first, when an axis has fewer than two distinct coordinates; otherwise the step is positive, at most every gap of both axes, and a gap of one axis |
| `SparseToTsv.AdjustRanges` | processing/hic/sparse_to_tsv.py:36-46 | `ignore_empty_start` sets both starts to 0; `symmetrical` gives both axes the smaller start and the larger end; otherwise the scanned bounds are kept |
| `SparseToTsv.Arange` | processing/hic/sparse_to_tsv.py:53-54 | label `k` is `lo + k * step`; all labels lie strictly before `hi` in the step's direction, and the next one would not |
| `SparseToTsv.Fill` | processing/hic/sparse_to_tsv.py:55-58 | the written cells stay symmetric |
| `SparseToTsv.FillIsLastValue` | processing/hic/sparse_to_tsv.py:55-58 | a cell is written exactly when some contact joins its bins, and holds the last such value with NaN replaced by 0 |
| `SparseToTsv.FillAgreesWithStore` | processing/hic/sparse_to_tsv.py:55-58 | the dense cells agree with the canonical store of `load_hic_data` for the same dump, up to NaN becoming 0 |
| `SparseToTsv.ChooseStep` | processing/hic/sparse_to_tsv.py:29-34 | a given step is used as is; only a missing step is inferred |
| `SparseToTsv.Clean` | processing/hic/sparse_to_tsv.py:56 | a value that is not NaN is kept, and no NaN is left when the replacement is not NaN |
| `SparseToTsv.FillFilledFrom` | processing/hic/sparse_to_tsv.py:55-58 | the fill writes exactly the cells of joined bins, each with the last value joining them, NaN written as 0 |
| `SparseToTsv.ReadHicExport` | processing/hic/sparse_to_tsv.py:11-60 | a malformed row fails the export with that row's error, a failed inference with its error, and a zero step with the zero-step error; otherwise the labels of each axis step from its adjusted start and stop exactly where the next label would pass its adjusted end, in either step direction, and the cells are symmetric, written exactly for the joined pairs, each holding the last value joining them with NaN as 0 |
| `Strings.LessStrictTotal` | processing/juicer/create_sh_export_file.py:71 | string `<` is irreflexive, asymmetric and total on distinct strings |
| `ExportJobs.Canon` | processing/juicer/create_sh_export_file.py:71 | the canonical pair holds the two names, the smaller first |
| `ExportJobs.CanonSymmetric` | processing/juicer/create_sh_export_file.py:71 | the canonical pair does not depend on the order of the names |
| `ExportJobs.VisitRow` | processing/juicer/create_sh_export_file.py:70-77 | the inner loop keeps the emitted list duplicate-free, canonical and in step with the observed set, and adds exactly the kept pairs of its row |
| `ExportJobs.VisitRows` | processing/juicer/create_sh_export_file.py:69-77 | the outer loop keeps the same invariant and adds exactly the kept pairs of the remaining rows |
| `ExportJobs.EnumeratePairs` | processing/juicer/create_sh_export_file.py:66-79 | `intra` is `[(c, c) for c in list]`; otherwise no pair is emitted twice, each pair is ordered smaller first, `inter` has no diagonal, and the emitted pairs are exactly the kept pairs of listed chromosomes |
| `ExportJobs.AllPairsEachChromosomeWithItselfOnce` | processing/juicer/create_sh_export_file.py:74-77 | in `all` mode every listed chromosome is paired with itself exactly once |
| `ExportJobs.VisitRowsIsUpper` | processing/juicer/create_sh_export_file.py:69-77 | for a list without repeats the loops emit the upper triangle, row by row |
| `ExportJobs.EnumerateDistinct` | processing/juicer/create_sh_export_file.py:67-77 | for `n` distinct chromosomes, `all` yields `n(n+1)/2` pairs and `inter` `n(n-1)/2`, in upper-triangle order |
| `ExportJobs.StripChr` | processing/juicer/create_sh_export_file.py:91-92 | exactly the leading `chr` is removed when present; otherwise the name is unchanged |
| `ExportJobs.StripChrUnseparated` | processing/juicer/create_sh_export_file.py:91-92 | stripping `chr` adds no `_` |
| `Strings.JoinFive` | processing/juicer/create_sh_export_file.py:82 | five parts joined are the parts with one separator between each two |
| `ExportJobs.JobName` | processing/juicer/create_sh_export_file.py:80-82 | a non-empty job name is used verbatim; otherwise the name is cell line (with `_` as `-`), mode, data, norm and bin size joined by `_`, and when data, norm and bin size hold no `_` it splits back into those five parts |
| `Strings.Replace` | processing/juicer/create_sh_export_file.py:82 | `replace("_", "-")` keeps the length, replaces every `_` and leaves no `_` |
| `ExportJobs.OutputPath` | processing/juicer/create_sh_export_file.py:93-95 | the dump name begins with the cell line, which holds no `_`, plus a separator, and ends with the norm and `.txt` |
| `ExportJobs.CellLineSourcesCover` | processing/juicer/create_sh_export_file.py:15-52 | every cell line with a chromosome table has a `.hic` source, both in the table as listed and in the corrected one, so the source lookup cannot fail; in the corrected table (not the listed one, see Findings) the two replicates of each `rudan15` species read different files |
| `ExportJobs.DogReplicatesShareSourceAsWritten` | processing/juicer/create_sh_export_file.py:44-45 | as listed, both dog replicates, which are accepted cell lines, read the same file |
| `ExportJobs.DumpCommands` | processing/juicer/create_sh_export_file.py:90-102 | one dump command per enumerated pair, in order, with the chromosomes as listed, the output path of that pair, and the cell line's entry in the given source table |
| `ExportJobs.DumpCommandsAsWrittenAndCorrected` | processing/juicer/create_sh_export_file.py:44-45 | with the listed source table and the corrected one the commands are identical for every cell line but `rudan15_dog2`; for that one the listed script reads the first dog replicate's file in every command, and the corrected one a different file, with the same chromosomes and output paths |
| `DumpNames.DumpFileName` | processing/juicer/create_sh_export_file.py:93-95 | the file name begins with the cell line and a separator and ends with the correction and `.txt` |
| `DumpNames.DumpFileNameSpelled` | processing/juicer/create_sh_export_file.py:93-95 | the file name is the five fields separated by single `_` characters, the last followed by `.txt` |
| `DumpNames.StripTxt` | processing/hic/create_sh_frag_matrix_file.py:56-57 | a trailing `.txt` is removed exactly when present |
| `DumpNames.ParseDumpName` | processing/hic/create_sh_frag_matrix_file.py:51-57 | the five-way unpack succeeds exactly when the name has five `_`-fields, else it names the field count; the fields hold no `_` |
| `DumpNames.LastFieldEndsWithTxt` | processing/hic/create_sh_frag_matrix_file.py:56-57 | the last field of a name ending in `.txt` ends in `.txt` |
| `DumpNames.DumpFileNameOfParse` | processing/hic/create_sh_frag_matrix_file.py:51-57 | a `.txt` name that unpacks is the file name of its fields |
| `DumpNames.ParseDumpFileName` | processing/hic/create_sh_frag_matrix_file.py:51-57 | a file name built from `_`-free fields unpacks to those fields |
| `Strings.Split` | processing/hic/create_sh_frag_matrix_file.py:51 | `split("_")` gives at least one field and no field holds `_` |
| `Strings.Join` | processing/juicer/create_sh_export_file.py:82 | joining no parts gives the empty text; otherwise the text begins with the first part |
| `Strings.SplitJoin` | processing/hic/create_sh_frag_matrix_file.py:51 | splitting the join of `_`-free fields gives the fields back |
| `Strings.JoinSplit` | processing/hic/create_sh_frag_matrix_file.py:51 | joining the split of a name gives the name back |
| `FragMatrixJobs.IsHicExport` | processing/hic/create_sh_frag_matrix_file.py:47 | a selected name is its base name plus `.txt`, and it unpacks exactly when it has five `_`-fields |
| `FragMatrixJobs.HicExports` | processing/hic/create_sh_frag_matrix_file.py:47 | an entry is selected exactly when it ends with `.txt` and has more than four `_`-fields |
| `FragMatrixJobs.HicExportsCount` | processing/hic/create_sh_frag_matrix_file.py:47 | each selected entry occurs as often as in the listing, others not at all |
| `FragMatrixJobs.HicExportsAppend` | processing/hic/create_sh_frag_matrix_file.py:47 | selection keeps listing order |
| `FragMatrixJobs.SelectedUnpackFails` | processing/hic/create_sh_frag_matrix_file.py:51 | a selected name fails the unpack exactly when it has more than five fields |
| `FragMatrixJobs.Keep` | processing/hic/create_sh_frag_matrix_file.py:52-55 | `all` keeps every dump, `inter` exactly the dumps of two different chromosomes, `intra` exactly the dumps of one chromosome |
| `FragMatrixJobs.BaseName` | processing/hic/create_sh_frag_matrix_file.py:62 | `hic_file[:-4]` is the name without `.txt` for a `.txt` name, and empty for a name under four characters |
| `FragMatrixJobs.ShFileName` | processing/hic/create_sh_frag_matrix_file.py:58 | the job file name begins with the prefix and ends with `.sh` |
| `FragMatrixJobs.ShFileNameDeterminesPair` | processing/hic/create_sh_frag_matrix_file.py:58 | for `_`-free names the job file name determines the chromosome pair and nothing else, so two resolutions of one pair share a job file |
| `FragMatrixJobs.Job` | processing/hic/create_sh_frag_matrix_file.py:58-62 | a job keeps its dump and fields; its base name plus `.txt` is the dump; its file name has the prefix and `.sh` |
| `FragMatrixJobs.JobOfSelectedDump` | processing/hic/create_sh_frag_matrix_file.py:56-62 | the job of a selected dump has base name plus `.txt` equal to the dump, which is the file name of its fields |
| `FragMatrixJobs.FirstFailure` | processing/hic/create_sh_frag_matrix_file.py:49-51 | the first dump whose unpack fails; every earlier one unpacks |
| `FragMatrixJobs.PlanShFiles` | processing/hic/create_sh_frag_matrix_file.py:49-62 | at most one write per dump; the loop ends normally exactly when no name fails to unpack, and otherwise with an unpack error |
| `FragMatrixJobs.PlanShFilesFailure` | processing/hic/create_sh_frag_matrix_file.py:49-51 | the loop ends normally exactly when every name unpacks; otherwise its exception is the unpack error of the first name that does not |
| `FragMatrixJobs.PlanShFilesWritten` | processing/hic/create_sh_frag_matrix_file.py:52-62 | every job file written is for a dump before the first failing name, whose name unpacks, which the mode keeps, and whose job is built from its fields |
| `FragMatrixJobs.PlanShFilesComplete` | processing/hic/create_sh_frag_matrix_file.py:49-62 | every dump before the first failing name that the mode keeps has its job among the writes |
| `FragMatrixJobs.PlanShFilesOutcome` | processing/hic/create_sh_frag_matrix_file.py:49-62 | the loop fails exactly when some name does not unpack, with the first failing name's error; every written job comes before that name, unpacks, is kept by the mode, and is named from its fields; and every kept dump before that name has its job written |
| `FragMatrixJobs.CreateShFiles` | processing/hic/create_sh_frag_matrix_file.py:47-62 | on a listing, only selected entries are unpacked; the loop stops exactly when a selected entry does not unpack, with the unpack error and field count of the first such entry; every kept selected entry before it has its job written, and each written job is a selected, kept entry whose base name and fields rebuild its name |
| `FragMatrixJobs.PlanAppend` | processing/hic/create_sh_frag_matrix_file.py:49-62 | jobs come in dump order: the loop over two runs is the loop over each |
| `FragMatrixJobs.PlanStopsAtFailure` | processing/hic/create_sh_frag_matrix_file.py:49-51 | a failing unpack stops the loop; later dumps are never looked at and earlier job files stay written |
| `FragMatrixJobs.PlanAllWritesEveryDump` | processing/hic/create_sh_frag_matrix_file.py:52-55 | in `all` mode, when every name unpacks, there is one job-file write per dump, in order |
| `FragMatrixJobs.WrittenOnlyIfKept` | processing/hic/create_sh_frag_matrix_file.py:52-55 | a job among the writes belongs to a dump the mode keeps |
| `FragMatrixJobs.PlanModesCount` | processing/hic/create_sh_frag_matrix_file.py:52-55 | when every name unpacks, `inter` and `intra` together make one write per dump |
| `FragMatrixJobs.PlanModesPartition` | processing/hic/create_sh_frag_matrix_file.py:52-55 | when every name unpacks, the job of each dump is written by exactly one of `inter` and `intra`, and the two together make one write per dump |
| `FragMatrixJobs.PlanAsWritten` | processing/hic/create_sh_frag_matrix_file.py:49-61 | as written the loop writes no job file, and ends without an exception only when the mode skips every dump |
| `FragMatrixJobs.AsWrittenFailsWhereJobsAreDue` | processing/hic/create_sh_frag_matrix_file.py:59-60 | wherever a job file is due, the loop as written stops on the undefined `bin_size` argument |
| `FragMatrixJobs.IntendedSingleDump` | processing/hic/create_sh_frag_matrix_file.py:49-62 | a directory holding only the dump of `_`-free fields, in `all` mode, is due exactly one job file, `{prefix}{chr1}_{chr2}.sh`, named after the dump without `.txt`, and the loop ends normally |
| `FragMatrixJobs.AsWrittenSingleDump` | processing/hic/create_sh_frag_matrix_file.py:59-60 | the loop as written writes nothing for that same dump and stops on the undefined `bin_size` argument |
| `FragMatrixJobs.SplitDumpFileName` | processing/juicer/create_sh_export_file.py:93-95 | with `_`-free first four fields, a dump name splits into those fields plus the fields of `norm.txt` |
| `FragMatrixJobs.ExportNameIsReadBack` | processing/juicer/create_sh_export_file.py:93-95 | every exported dump name is selected by the job script, and unpacks back to its fields when chromosomes, bin size and norm hold no `_` |
| `FragMatrixJobs.SeparatedNormFailsUnpack` | processing/juicer/create_sh_export_file.py:93-95 | an exported name whose norm holds `_` is selected but fails the unpack |
| `FragMatrixJobs.SplitVcSqrt` | processing/juicer/create_sh_export_file.py:59 | the norm choice `VC_SQRT` with `.txt` splits into two fields |
| `FragMatrixJobs.VcSqrtDumpHasSixFields` | processing/juicer/create_sh_export_file.py:59 | the norm choice `VC_SQRT` gives six fields, so the job script's unpack fails on those dumps |

## Left out

- Fragment-to-bin overlap weighting and the contact matrix of the
  `frag_matrix.py` driver. `count_contact` is a stub returning NaN, and the
  driver reads an undefined `data` (processing/hic/frag_matrix.py:53-78).
- `processing/ensembl/create_mapping.py`: connected components of a graph
  library, plus file I/O.
- All reading of files, directory listings, argument parsing, logging, path
  checks, directory creation, and the printing of the SBATCH, `echo` and
  `java` lines. Rows, listings and arguments are parameters.
- The file name of `load_hic_data`. Its first lines format
  `{cell_line}_{chr1}_{chr2}_{resolution}_{correction}.txt`, join it to the
  folder and log it (processing/hic/frag_matrix.py:26-29). Nothing opens
  that file: `csv.reader` is handed the path string itself, so it would
  iterate over the characters of the path (processing/hic/frag_matrix.py:31).
  The model takes the rows of the dump as a parameter instead.
- Job files on disk. Each job file is opened with `"wt"`, which truncates
  it, under the name `{prefix}{chr1}_{chr2}.sh`. That name ignores the cell
  line, resolution and correction (processing/hic/create_sh_frag_matrix_file.py:58,61;
  `FragMatrixJobs.ShFileNameDeterminesPair`). Two dumps of one pair
  therefore write the same file, and the later replaces the earlier. The
  model keeps the sequence of writes, so "one write per dump" does not mean
  one file per dump.
- The contacts file name of the job script (processing/hic/create_sh_frag_matrix_file.py:59-60).
  It is not modelled beyond the exception it raises; see Findings.
- The header line of the export script goes to standard output, not the
  output file (processing/juicer/create_sh_export_file.py:85). That is I/O
  only.
- pandas behaviour.
  - `set_value` enlarges the frame when a contact's coordinates are not
    among the labels; the model keeps labels and cells separate and does
    not add such labels.
  - `fillna`, the `np.triu` masking and `to_csv` (processing/hic/sparse_to_tsv.py:87-91)
    belong to the command-line driver.
- The `--step` command-line string reaches `read_hic_export` unparsed
  (processing/hic/sparse_to_tsv.py:68). The model takes the step as an
  optional integer.
- Floating-point values are opaque: `float()` and the NaN test are
  parameters.
- `Strings.ParseInt` models `int()` of ASCII decimal text with surrounding
  ASCII whitespace and an optional sign. Not modelled:
  - Python 3's digit-group underscores and non-ASCII digits;
  - Python 3 stripping Unicode whitespace, not only ASCII;
  - Python 2 accepting whitespace between the sign and the digits:
    `int("- 5")` is `-5` there but `None` in the model. The job scripts load
    Python 2.7.6 (processing/hic/create_sh_frag_matrix_file.py:44).

  Its contract states only that an accepted text holds a digit; its meaning
  is pinned down by `Strings.ParseShowInt`.
- `FragMatrixJobs.PlanShFiles` states only the number of writes and the
  kind of its failure. Its full outcome is stated by
  `FragMatrixJobs.PlanShFilesOutcome`.
- `Strings.Join` states only the empty join and the leading part. Its
  meaning is pinned down by `Strings.SplitJoin`, `Strings.JoinSplit` and
  `Strings.JoinFive`.
- `Contacts.LastValueSymmetric` and `FragMatrixJobs.SelectedUnpackFails`
  follow directly from their definitions.

## Findings

| source | as written | input that shows it | evidently intended | confidence | as-written member | corrected member |
|---|---|---|---|---|---|---|
| processing/hic/create_sh_frag_matrix_file.py:59-60 | Before each job file is opened, the contacts file name is formatted with `args.bin_size`. No command-line argument defines `bin_size`, so the first dump the mode keeps raises `AttributeError` and no job file is ever written. | A directory holding one dump, such as `a_1_1_10000_KR.txt`, with `--chromosomes all` (`FragMatrixJobs.IntendedSingleDump`, `FragMatrixJobs.AsWrittenSingleDump`) | Every kept dump has its job file `{prefix}{chr1}_{chr2}.sh` written (`FragMatrixJobs.PlanShFilesComplete`, `FragMatrixJobs.PlanShFilesOutcome`) | high (not executed) | `FragMatrixJobs.PlanAsWritten` | `FragMatrixJobs.PlanShFiles` |
| processing/hic/frag_matrix.py:48 | `sum(lambda fr_list: len(fr_list), generator)` passes the function as the iterable, so `get_fragments` raises `TypeError` after the grouping loop and never returns the catalog | An empty catalog (`FragMatrix.GetFragmentsAsWrittenExample`) | Return the grouping, after logging the total number of fragments (`FragMatrix.GroupKeepsEveryFragment`) | high (not executed) | `FragMatrix.GetFragmentsAsWritten` | `FragMatrix.GetFragments` |
| processing/juicer/create_sh_export_file.py:44-45 | Both `rudan15_dog1` and `rudan15_dog2` map to `canis-lupus-rep1.hic`, so the second dog replicate dumps the first replicate's contacts | `--cell-line rudan15_dog2` (`ExportJobs.DogReplicatesShareSourceAsWritten`) | `rudan15_dog2` reads `canis-lupus-rep2.hic`, as each other `rudan15` species has a `rep1` and a `rep2` file (`ExportJobs.CellLineSourcesCover`). The dump commands differ only there (`ExportJobs.DumpCommandsAsWrittenAndCorrected`) | medium (not executed) | `ExportJobs.CellLineSourcesAsWritten` | `ExportJobs.CellLineSources` |
