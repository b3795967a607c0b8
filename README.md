# CFS preparation script — a Dafny model

The preparation script drives fragment-screening crystallography data through
four external tools. For every dataset directory under a base directory it
runs uniqueify, cad, phenix.phaser and phenix.refine. Between the tool runs
it patches the occupancy field of the coordinate files as text. This project
models the parts of `CFS_preparation_script.py` that are logic rather than
shell calls:

- `text.dfy` (module `PyText`): the Python string operations the script uses,
  with Python's semantics. These are `str.startswith`, the substring test
  `in`, slicing that clamps to the length, `str.replace` and two-argument
  `os.path.join`.
- `occupancy.dfy` (module `Occupancy`): `change_occupancy` and
  `change_occupancy_refine`. A line qualifies when it starts with a record name
  (`HETATM`; in the second pass `HETATM` or `ATOM`) and its 0-based slice
  `[55:62]` contains `"0.00"`. A qualifying line then goes through
  `line.replace("0.00", value)`, with value `"0.50"` or `"0.01"`. The write
  loop is the method `WriteLines`, proved equal to the function `PatchLines`.
- `polling.dfy` (module `Polling`): the loop of `wait_for_file`, run against an
  oracle that answers each `os.path.exists` call in turn.
- `pipeline.dfy` (module `Pipeline`): the loop of `main`, which selects entries
  and calls the six stages in order, recorded as a trace of (directory, stage)
  events. It also holds the existence gate of `run_phenix_refine`.

Two behaviours of the code are easy to miss, and the model follows the code in
both:

- The comment above the guard at `CFS_preparation_script.py:61` (and again at
  `:115`) reads "Replace only if '0.00' is within columns 56-62". The window
  only decides WHETHER a line is patched. The patch itself is
  `line.replace("0.00", value)` on the whole line, so every non-overlapping
  `"0.00"` in a qualifying line is rewritten, inside the window or not. A
  temperature factor such as `10.00` becomes `10.50`, and a coordinate such as
  `30.000` becomes `30.500` (`Occupancy.PatchAnywhere`).
- Running the patch twice is not the same as running it once. The first pass
  turns `0.00.00` at the start of the occupancy field into `0.50.00`, and that
  line still has a `"0.00"` inside columns 56-62, so a second pass changes it
  again (`Occupancy.PatchNotIdempotent`). Nothing in the script keeps a file
  from being patched twice.

In the model no stage's outcome affects which stages run later: the trace of
stage calls depends only on the directory listing. The script itself only
survives a tool that exits with a non-zero status; other exceptions end the
whole run (see "Left out").

## Model

| member | source | states |
|---|---|---|
| `PyText.Slice` | CFS_preparation_script.py:62 | `line[55:62]` clamps both bounds to the line's length, so the slice is empty for a line of 55 characters or fewer; character k of the slice is character 55+k of the line |
| `PyText.StartsWithPointwise` | CFS_preparation_script.py:60 | `line.startswith(p)` holds exactly when the line is at least as long as `p` and agrees with it character by character |
| `PyText.Contains` | CFS_preparation_script.py:62 | the `in` test, computed as a left-to-right search, is true exactly when the pattern occurs at some index of the text |
| `PyText.ReplaceLength` | CFS_preparation_script.py:63 | `str.replace` with a replacement as long as the pattern keeps the length of the text |
| `PyText.ReplaceWithoutOccurrence` | CFS_preparation_script.py:63 | text that does not contain the pattern comes back unchanged |
| `PyText.ReplaceAtLeftmost` | CFS_preparation_script.py:63 | the text before the leftmost occurrence is kept, that occurrence becomes the replacement, and the scan resumes right after it; together with ReplaceWithoutOccurrence this determines `str.replace` completely |
| `PyText.ReplaceKeepsUncovered` | CFS_preparation_script.py:63 | a character that lies inside no occurrence of the pattern keeps its value |
| `PyText.ReplaceIsolatedOccurrence` | CFS_preparation_script.py:63 | an occurrence that no earlier occurrence overlaps is replaced, wherever it lies in the text |
| `PyText.JoinShape` | CFS_preparation_script.py:142 | `os.path.join(a, b)` returns an absolute `b` unchanged; otherwise the result starts with `a`, ends with `b`, is at most one character longer than both together, and has a `/` right before `b` whenever `a` is not empty |
| `PyText.JoinInjective` | CFS_preparation_script.py:142 | `os.path.join(base_dir, subdir)` gives different paths for different entry names |
| `Occupancy.Qualifies` | CFS_preparation_script.py:60-62 | a line qualifies exactly when it starts with one of the record names and some `"0.00"` starts at a 0-based index from 55 to 58, that is, lies wholly within columns 56-62; `change_occupancy_refine` uses the same guard with HETATM or ATOM |
| `Occupancy.PatchLine` | CFS_preparation_script.py:60-63 | only a line that starts with a record name and has `"0.00"` in `[55:62]` can change; a four-character value keeps the line's length |
| `Occupancy.PatchLines` | CFS_preparation_script.py:58-64 | the patched file has as many lines as the original, and line i is line i patched |
| `Occupancy.PatchLinesAppend` | CFS_preparation_script.py:59-64 | patching a file is patching its parts, so no line influences another |
| `Occupancy.ShortLineUnchanged` | CFS_preparation_script.py:62 | a line shorter than 59 characters cannot hold `"0.00"` in columns 56-62 and is never changed |
| `Occupancy.PatchAnywhere` | CFS_preparation_script.py:61-63 | in a qualifying line, every `"0.00"` that does not continue a `"0.00"` three characters earlier becomes the new value, even outside columns 56-62 |
| `Occupancy.PatchKeepsOtherCharacters` | CFS_preparation_script.py:61-63 | characters that belong to no `"0.00"` are never changed |
| `Occupancy.QualifyingLineChanges` | CFS_preparation_script.py:60-63 | a qualifying line always changes when the value differs from `"0.00"` |
| `Occupancy.PatchOverlappingMatch` | CFS_preparation_script.py:59-63 | for a HETATM line whose first `"0.00"` opens the occupancy field and is followed by `.00`, the first pass writes `0.50.00`; that line qualifies again and a second pass changes it |
| `Occupancy.PatchNotIdempotent` | CFS_preparation_script.py:59-64 | some HETATM line is patched differently by a second run of `change_occupancy` than by the first |
| `Occupancy.WriteLines` | CFS_preparation_script.py:58-64 | the write loop writes exactly `PatchLines` of the lines it read |
| `Occupancy.ChangeOccupancy` | CFS_preparation_script.py:48-68 | a missing PHASER.pdb gives "File not found"; otherwise as many lines are written back as were read, each of the same length, and only HETATM lines can differ |
| `Occupancy.ChangeOccupancyRefine` | CFS_preparation_script.py:102-122 | the same for PHASER.phenix_refine_001.pdb, with value `"0.01"`; only lines that start with HETATM or ATOM can differ |
| `Polling.CeilDiv` | CFS_preparation_script.py:132-135 | the result is the least n ≥ 0 with n·d ≥ t, that is ceil(t/d) for positive t |
| `Polling.IterationBound` | CFS_preparation_script.py:132-135 | if the last of n sleeps started before the timeout, then n ≤ ceil(timeout/interval) |
| `Polling.DefaultBound` | CFS_preparation_script.py:125 | with the defaults (300 s, 5 s) a wait sleeps at most 60 times |
| `Polling.WaitForFile` | CFS_preparation_script.py:125-137 | with a positive interval the loop terminates. total_time = sleeps·interval. On exit the file was found or total_time ≥ timeout. Every earlier poll found no file while total_time < timeout. total_time < timeout + interval. sleeps ≤ ceil(timeout/interval). The warning is printed exactly when the check after the loop finds no file |
| `Pipeline.IsDataset` | CFS_preparation_script.py:143 | a selected entry is a directory whose name is at least as long as `MyProtein-MyLibrary-` and does not start with `/`, so `os.path.join` never discards the base directory |
| `Pipeline.RunBatch` | CFS_preparation_script.py:140-149 | the loop of `main` produces exactly `BatchTrace` of the listing |
| `Pipeline.BatchTraceAppend` | CFS_preparation_script.py:141-149 | the entries are processed independently and in listing order |
| `Pipeline.DatasetStagesInOrder` | CFS_preparation_script.py:143-149 | every directory named `MyProtein-MyLibrary-...` gets uniqueify, cad, phaser, change_occupancy, refine, change_occupancy_refine, consecutively and in that order, right after the calls for the entries before it |
| `Pipeline.OnlyDatasetsRun` | CFS_preparation_script.py:141-143 | every stage call is on the path of a directory whose name starts with `MyProtein-MyLibrary-` |
| `Pipeline.StagesInsideBase` | CFS_preparation_script.py:142-149 | every stage call is on a path that starts with `base_dir` |
| `Pipeline.OtherEntryUntouched` | CFS_preparation_script.py:141-143 | a file, or a directory with another name (`Other-42`), is never passed to any stage |
| `Pipeline.TraceLength` | CFS_preparation_script.py:143-149 | the batch makes exactly six calls per selected directory |
| `Pipeline.RefineCommand` | CFS_preparation_script.py:82-90 | the argument vector has ten entries: `phenix.refine`; the paths of PHASER.mtz, PHASER.pdb and input.ligands.cif in the dataset directory; the five fixed options; and `output.prefix=` followed by the path of PHASER.phenix_refine |
| `Pipeline.RunPhenixRefine` | CFS_preparation_script.py:71-99 | the refine command is issued exactly when PHASER.mtz, PHASER.pdb and input.ligands.cif all exist. It starts with `phenix.refine` and names exactly those three files. Otherwise the result is "Missing necessary files" |
| `Pipeline.MissingLigandsSkipRefine` | CFS_preparation_script.py:74-99 | without input.ligands.cif no refinement command is issued |

## Left out

- `run_uniqueify`, `run_cad` and `run_phaser` (CFS_preparation_script.py:5-45) run external programs through a shell. They appear only as stage events. Their command strings, the `*.mtz` glob and the cad here-document are not modelled.
- `subprocess.run` and its `CalledProcessError` handling are not modelled. In the script a tool that exits with a non-zero status is reported and the batch goes on; in the model every stage call simply returns.
- `subprocess.run(refine_command, check=True)` at CFS_preparation_script.py:93 starts `phenix.refine` without a shell. If the program cannot be started (not on `PATH`), it raises `FileNotFoundError`, an `OSError`. The `except subprocess.CalledProcessError` at :95 does not catch it, so it escapes `main` (:148) and ends the whole batch. This exit path is not modelled.
- File reading and writing are replaced by values. `Occupancy.PdbFile` is the file as the existence check after the wait finds it, and the written lines are returned.
- `os.path.exists` is replaced by oracles: `existsAt` in `WaitForFile` and `present` in `RunPhenixRefine`. The waits inside `change_occupancy`, `run_phenix_refine` and `change_occupancy_refine` are `Polling.WaitForFile`. The later stages take their results only through the file state.
- `os.listdir` order is unspecified. The model takes the listing as given, in any order.
- `print` logging is left out. Its decisions are modelled as outcomes: `FileNotFound`, `MissingFiles` and `warned`.
- `time.sleep` is an abstract step. The script never imports `time`, so the first sleep would raise `NameError`, which escapes `main` and ends the whole run. A stage whose output is missing at the first check therefore stops every later dataset. That crash is not modelled: the model takes the sleep as done.
- PyText.Replace: requires a non-empty pattern. Python's behaviour for an empty pattern (inserting the replacement between characters) is not modelled, because the script only replaces `"0.00"`.
- Polling.WaitForFile: requires `check_interval > 0`. With a zero or negative interval the script's loop does not terminate while the file is missing.
- PyText.Join: models `os.path.join` for two components only, which is how the script uses it.
- PDB format semantics are not modelled. Occupancies are never read as numbers, as in the script.
