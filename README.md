# PEACCEL dataset preparation, modelled in Dafny

The scripts prepare protein-variant datasets for machine learning. This project
models the logic they apply to strings and lists, with the file, network and
workbook handling removed. It covers four scripts.

- `dataseq_melting.py` (module `Melting`) rebuilds each variant's amino-acid
  sequence. It applies the variant's mutation notation to a reference sequence.
  A notation is one token such as `V4L`, meaning origin residue, 1-based position
  and target residue. It can also be several tokens joined by `:`, such as
  `A2K:T6Q`. The new sequence is appended to the CSV line as a new column.
- `seq_checker_V2.py` (module `Checker`) audits a dataset against a reference.
  Every claim "residue X at position p" whose position parses as an integer is
  compared with the reference; a claim whose position does not parse is skipped.
  The result is a log with one line per compared claim plus a summary line, and
  a 0/1 verdict.
  The script also derives file names from paths.
- `Data_treatment.py` (module `Treatment`) does the following:
  - filters the dataset rows into `[sequence, fitness, mutation]` records;
  - checks sequences against the amino-acid alphabet;
  - splits records into parallel lists;
  - ranks records by fitness to keep the ten best mutations;
  - names the output directory;
  - reads the reference sequence from a FASTA text.
- `dataset_sep.py` (module `SheetSep`) turns each sheet of a workbook into a CSV
  text, with one line per row.

Three modules are shared:

- `Wrappers` holds `Option` and `Result`. A Python call that raises is modelled
  as one that returns `Raise(e)`, where `e` is one of `IndexError`,
  `ValueError`, `StopIteration` and `TypeError`.
- `PyStr` writes out the Python string built-ins the scripts use:
  - `rstrip()`;
  - `split(c)`, with its round trip against `join`;
  - `int()` on text;
  - negative subscripts;
  - the slices `[1:-1]` and `[1:]`;
  - the base name of a path.
- `Ranker` is the stable descending sort behind `sorted(..., reverse=True)`.

The model follows the code, including its quirks:

- A single-token notation whose origin residue does not match the reference
  falls off the end of `seq_muting`, which then returns `None`. `seq_adding`
  then passes that `None` to `write`, which raises `TypeError`. The model keeps
  both steps: `Muting` returns `Ok(None)`, and `SeqAdding` stops with
  `TypeError` and returns the lines written so far.
- A mismatching segment in a `:` combination is skipped silently. A
  non-numeric position inside a combination raises `ValueError`. A non-numeric
  position in a single token returns the unchanged reference.
- Positions are Python indices (`position - 1`). Position 0 or a negative
  position reaches residues counted from the end. Only indices outside
  `[-len, len)` raise or count as out of range.
- In the checker, claims whose position does not parse are skipped without a
  log line.
- `data_treatment_making` drops the first cell of the first row. It writes an
  empty first-column cell of every later row as `None`.

## Model

| member | source | states |
|---|---|---|
| PyStr.RStrip | dataseq_melting.py:36 | the result is a prefix of the input, with no trailing whitespace, and everything it removed is whitespace |
| PyStr.Split | dataseq_melting.py:36 | `split(c)` gives one more piece than there are separators, no piece holds the separator, and text without it gives itself as the only piece |
| PyStr.SplitJoin | dataset_sep.py:56-65 | splitting a join of separator-free pieces gives the pieces back |
| PyStr.JoinSplit | dataseq_melting.py:51 | joining the pieces of a split gives the text back |
| PyStr.PyIndex | dataseq_melting.py:45 | a Python subscript succeeds exactly for indices in `[-n, n)` and reaches the position congruent to the index mod n |
| PyStr.ParseInt | dataseq_melting.py:41 | `int()` succeeds only on non-empty text without `:` or `,` |
| PyStr.ParseIntRoundTrip | dataseq_melting.py:41 | `int(str(i)) == i` for every integer, negative ones included |
| PyStr.StemShape | seq_checker_V2.py:96-101 | the base name holds no `/` and no `.`; it is a prefix of the last `/`-segment, which ends the path, and it stops at a `.` |
| Melting.SegmentError | dataseq_melting.py:53-56 | a segment raises exactly when its index does not resolve: ValueError exactly when it is non-empty and its position does not parse; IndexError exactly when it is empty (`mut[0]`) or its position minus one lies outside `[-len, len)` |
| Melting.ApplySegment | dataseq_melting.py:53-57 | one loop pass raises only IndexError or ValueError |
| Melting.ApplySegments | dataseq_melting.py:52-57 | the combination loop raises only IndexError or ValueError |
| Melting.Single | dataseq_melting.py:37-48 | the single-token branch raises only IndexError |
| Melting.Muting | dataseq_melting.py:36-58 | `seq_muting` raises only IndexError or ValueError |
| Melting.RaiseSticks | dataseq_melting.py:52-57 | once a segment has raised, the later segments do not change the outcome |
| Melting.MutateSingle | dataseq_melting.py:37-48 | overwriting one residue of a mutable copy of the reference gives exactly `Single` |
| Melting.MutateCombination | dataseq_melting.py:49-58 | the loop overwriting a mutable copy in place gives exactly the left-to-right application `ApplySegments` |
| Melting.SeqMuting | dataseq_melting.py:27-58 | the in-place overwrite of a copied buffer returns exactly `Muting` |
| Melting.SingleToken | dataseq_melting.py:37-48 | for a token `o p t`: the line extended with the reference with index p-1 set to t when that residue is o, `None` on a mismatch, IndexError outside `[-len, len)` |
| Melting.NonNumericKeepsReference | dataseq_melting.py:40-43 | a single token whose middle does not parse, or one of at most two characters, gives the line extended with the unchanged reference |
| Melting.EmptyFieldRaises | dataseq_melting.py:39 | an empty mutation cell raises IndexError |
| Melting.SegmentShape | dataseq_melting.py:53-57 | one segment succeeds exactly when it raises nothing, keeps the length, and changes at most its own position, to its target |
| Melting.SegmentsShape | dataseq_melting.py:50-58 | the combination succeeds exactly when no segment raises; the result has the reference's length, and every changed residue was written by a segment at that position |
| Melting.FirstFailure | dataseq_melting.py:52-56 | a failing combination raises the exception of its first failing segment |
| Melting.DisjointSegments | dataseq_melting.py:50-58 | segments at pairwise different positions each compare their origin with the reference itself |
| Melting.ChainedSamePosition | dataseq_melting.py:52-57 | a second segment at the same position sees the first one's overwrite |
| Melting.SegmentAt | dataseq_melting.py:53-57 | a segment written with the decimal text of its position overwrites that position exactly when the residue there is its origin residue |
| Melting.ExampleSingle | dataseq_melting.py:37-48 | `V4L` on `MASVLT` gives `MASLLT` |
| Melting.ExampleSegments | dataseq_melting.py:50-58 | `A2K` then `T6Q` on `MASVLT` give `MKSVLQ` |
| Melting.ExampleCombinationSplit | dataseq_melting.py:51 | `A2K:T6Q` splits into `A2K` and `T6Q` |
| Melting.ExampleCombination | dataseq_melting.py:49-58 | the line `7,A2K:T6Q` on `MASVLT` becomes `7,A2K:T6Q,MKSVLQ` |
| Melting.Filename | dataseq_melting.py:61-69 | `filename` raises exactly when the name has no `.` |
| Melting.FilenameOfStemAndExtension | dataseq_melting.py:67-69 | `name.ext[.more]` becomes `name_seq.ext` |
| Melting.SeqAdding | dataseq_melting.py:72-87 | with no lines, StopIteration; otherwise the header plus `,sequence` first, then each later line mapped through `seq_muting` in order; it stops at the first line that raises or returns `None`, with that line's exception |
| Checker.CheckedClaims | seq_checker_V2.py:66-70 | the claims kept are exactly those whose position parses, never more than the claims |
| Checker.CheckedClaimsConcat | seq_checker_V2.py:66-70 | the claims kept from two consecutive blocks are those kept from the first followed by those kept from the second, so order and repetitions are preserved |
| Checker.CheckedClaimsSingle | seq_checker_V2.py:66-70 | a single claim is kept exactly when its position parses |
| Checker.VerdictMeaning | seq_checker_V2.py:64-82 | the verdict is 0 or 1, and 0 exactly when every checked claim's residue matches the reference at the Python index `position - 1` |
| Checker.AuditClaim | seq_checker_V2.py:67-82 | one claim writes its entry line exactly when its position parses, and sets the flag exactly when it is checked and does not correspond |
| Checker.CheckCorrespondence | seq_checker_V2.py:55-87 | returns the verdict, and logs one line per checked claim in order, then the summary matching the verdict |
| Checker.AuditSnoc | seq_checker_V2.py:66-82 | a further claim adds its own log line when it is checked and nothing when it is skipped |
| Checker.VerdictMonotone | seq_checker_V2.py:64-82 | the flag never returns to 0: a list fails exactly when one of its parts fails |
| Checker.NothingCheckedCorresponds | seq_checker_V2.py:83-84 | a list with no checked claim, including the empty list, corresponds, and its log is only the success summary |
| Checker.OutOfRangeFails | seq_checker_V2.py:79-82 | a claim outside `[-len, len)` gets the "Not found" line and fails the audit |
| Checker.PositionZeroWraps | seq_checker_V2.py:68-73 | position 0 is compared with the last residue |
| Checker.ExampleAudit | seq_checker_V2.py:64-82 | on `MASVLT`, `M1` matches, `X2` does not, and the verdict is 1 |
| Checker.Claims | seq_checker_V2.py:47-51 | no more claims than lines, each non-empty and starting with a residue of the alphabet |
| Checker.ClaimsConcat | seq_checker_V2.py:47-51 | the claims of two consecutive blocks of lines are those of the first followed by those of the second; a raise in the second block is the outcome |
| Checker.ClaimsSingle | seq_checker_V2.py:48-51 | one line alone gives its claim when it starts with a residue of the alphabet, nothing otherwise |
| Checker.ClaimsPrefix | seq_checker_V2.py:47-51 | when no line raises, no prefix raises, and the claims of a prefix are a prefix of the claims |
| Checker.ClaimsAllRead | seq_checker_V2.py:48-50 | when no line raises, every line has a non-empty claim `sline[trueaapos] + sline[posp]` |
| Checker.ClaimsComplete | seq_checker_V2.py:49-51 | every line whose claim starts with a residue of the alphabet has that claim collected |
| Checker.ClaimsProvenance | seq_checker_V2.py:49-51 | every collected text is the claim `sline[trueaapos] + sline[posp]` of some line |
| Checker.RetrievePos | seq_checker_V2.py:32-52 | skipping more lines than the file has raises StopIteration; otherwise the claims are those of the remaining lines |
| Checker.RaiseSticks | seq_checker_V2.py:47-51 | a line that raises ends the collection with that exception |
| Checker.GetName | seq_checker_V2.py:90-101 | both branches give the base name, which holds no `/` and no `.` |
| Checker.GetLogname | seq_checker_V2.py:104-114 | the log name is the data base name, `_`, then the FASTA base name |
| Ranker.Insert | Data_treatment.py:105 | inserting a new index keeps the order and adds exactly that index |
| Ranker.StableOrder | Data_treatment.py:105 | the order lists each of the indices exactly once, by key descending, ties in input order |
| Ranker.SortedOrder | Data_treatment.py:105 | `sorted(..., reverse=True)` is a permutation, with keys descending and equal keys in input order |
| Ranker.PrefixDominates | Data_treatment.py:105-110 | every index among the first m has a key at least that of every index left out |
| Ranker.OrderUnique | Data_treatment.py:105 | any two orders with the same indices, both descending and stable, are equal |
| Treatment.CheckAa | Data_treatment.py:25-35 | 0 exactly when every residue is in the alphabet, 1 otherwise; the empty sequence gives 0 |
| Treatment.ExampleClean | Data_treatment.py:6 | with the twenty standard amino acids, `MASVLT` is clean and `MAXVLT` is not |
| PyStr.Cells | Data_treatment.py:53 | a line always has at least one cell |
| Treatment.RowRecord | Data_treatment.py:53-54 | a record is read exactly when the fitness and mutation columns are in range, otherwise IndexError; its sequence is the last cell, its fitness the `cellfit` cell and its mutation the `cellmut` cell, with Python's negative indexing; no field holds a comma |
| Treatment.Retrieved | Data_treatment.py:49-58 | at most one record per line; every record has a fitness and a clean sequence; the only error is IndexError |
| Treatment.DataRetrieve | Data_treatment.py:38-58 | the loop returns exactly `Retrieved` |
| Treatment.RetrievedRaiseSticks | Data_treatment.py:53-54 | a line that raises ends the retrieval with that exception |
| Treatment.RetrievedConcat | Data_treatment.py:51-57 | each line is filtered on its own: the records of consecutive blocks are concatenated |
| Treatment.RetrievedSingle | Data_treatment.py:52-57 | a single data line gives its record exactly when the record has a fitness and a clean sequence, and nothing otherwise |
| Treatment.RetrievedPrefix | Data_treatment.py:51-57 | when no line raises, no prefix raises, and the records of a prefix are a prefix of the records |
| Treatment.RetrievedComplete | Data_treatment.py:51-57 | every non-header line whose record has a fitness and a clean sequence has that record in the result |
| Treatment.RetrievedProvenance | Data_treatment.py:52-57 | every record kept is the record of some non-header line |
| Treatment.RetrievedHeaderIgnored | Data_treatment.py:52 | a line starting with `id` contributes nothing, wherever it appears |
| Treatment.DataSep | Data_treatment.py:76-87 | two lists of the input's length holding each record's sequence and fitness in order |
| Treatment.Keys | Data_treatment.py:90-96 | one key per record, the `float()` of its fitness |
| Treatment.MutCombS | Data_treatment.py:99-111 | exactly `min(10, len(dataset))` mutations, those of the records in ranking order |
| Treatment.RankingProperties | Data_treatment.py:96-105 | the ranking lists every record once, fitness descending, equal fitness in input order |
| Treatment.TopTenDominates | Data_treatment.py:105-110 | every record whose mutation is returned is at least as fit as every record left out |
| Treatment.MakingDirectory | Data_treatment.py:181-193 | the directory name is the base name of the path, without `/` or `.` |
| Treatment.RetrieveSeq | Data_treatment.py:196-207 | the loop returns exactly the stripped non-`>` lines concatenated in order |
| Treatment.FastaBodyConcat | Data_treatment.py:204-206 | the sequence of consecutive blocks of lines is the concatenation of their sequences |
| Treatment.FastaBodyNoNewline | Data_treatment.py:206 | no line-ending newline reaches the sequence |
| SheetSep.CellTexts | dataset_sep.py:56-64 | one field per cell |
| SheetSep.PieceText | dataset_sep.py:57-64 | a cell after the first adds a comma and its field; the first adds its field alone |
| SheetSep.RowPrefixJoin | dataset_sep.py:55-64 | the line built from the first m cells is their fields joined by commas |
| SheetSep.RowLineJoin | dataset_sep.py:55-65 | a row's line is its fields joined by commas |
| SheetSep.RowLineSplit | dataset_sep.py:55-65 | reading a row's line back with `split(',')` gives its fields when no cell holds a comma |
| SheetSep.RowLineCommas | dataset_sep.py:61-64 | a row of n comma-free cells gives exactly n - 1 commas |
| SheetSep.FirstRowStartsWithComma | dataset_sep.py:57-58 | the first row's line, for two or more cells, starts with `,` |
| SheetSep.LaterRowStartsWithFirstCell | dataset_sep.py:59-60 | a later row's line starts with the text of its first cell, `None` for an empty one |
| SheetSep.BuildLine | dataset_sep.py:55-64 | the cell loop builds exactly the row's line |
| SheetSep.DatasetMaking | dataset_sep.py:11-20 | the rows, unchanged and in order |
| SheetSep.DataTreatmentMaking | dataset_sep.py:41-67 | one file per sheet, in order, named `<sheet>.csv`, holding one line per row |
| SheetSep.SheetFileReadBack | dataset_sep.py:51-65 | each written line ends with a newline, and its text splits back into the row's fields |

## Left out

- Command-line parsing, opening, reading and writing files, and `print` are left
  out. Every function works on the lines of a file, or on the rows of a sheet,
  passed as sequences. The text a script writes is returned instead.
- `retrieve_wt` and `seq_retrieve` are left out: they download a UniProt page
  and scrape it. `set_making` is left out too: it shuffles at random and cuts at
  a float ratio. So are `writing_wt`, `writing_files` and `mut_writing_s`, which
  only write files. The creation of the directory by `making_directory` is not
  modelled either.
- `get_data` is left out: it loads the workbook with openpyxl. Cells are
  modelled as text already produced by `str()`, or None for an empty cell.
- `Treatment.Keys`: `float()` of a fitness text is the parameter `toFloat`. The
  model does not capture its ValueError on non-numeric text, nor the ordering of
  NaN.
- `PyStr.ParseInt`: Python's `int()` also accepts surrounding whitespace,
  underscores between digits and non-ASCII digits. The model accepts only an
  optional sign followed by ASCII digits.
- `PyStr.RStrip`: only whitespace up to U+00FF is stripped. Python also strips
  the Unicode spaces above it.
- `Checker.RetrievePos`: the column numbers arrive already as integers. The
  source converts them with `int()`.
- `Treatment.MutCombS`: the script shuffles `main_data` in place with
  `random.shuffle` inside `set_making` (Data_treatment.py:67, 221), then ranks
  the same list (Data_treatment.py:226). In the running program, "equal fitness
  in input order" therefore means the shuffled order, so which tied records pass
  the cut of ten is random. The model ranks the list it is given and does not
  capture that aliasing or the shuffle.
- `SheetSep.DataTreatmentMaking`: the files are returned as a sequence. The
  model does not capture that a later sheet with the same name overwrites an
  earlier file.
- `retrieve_seq` appears identically in all three scripts. It is modelled once,
  as `Treatment.RetrieveSeq`.
