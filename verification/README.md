# check_format in Dafny

A model of `check_format.py`, a script that prepares a directory of text files
for a tool that wants Shift_JIS CSV files. Run as a program, it:

1. lists the regular files directly inside a directory (`_get_file_names`);
2. renames every file whose name matches `.+\.txt$` to its `splitext` root plus
   `.csv` (`change_format_to_csv`);
3. asks `nkf -g` for the encoding of every listed file and records
   `(file name, detector output)` pairs in `cmd_ret` (`check_encoding`);
4. converts every recorded file whose detector output does not start with
   `Shift_JIS` in place with `nkf -s --overwrite` (`change_encoding`).

The directory listing, the regular-file test, the encoding detector and the
converter are parameters of the model. `isFile` is asked about the path the
script builds, `detect` gets the argument vector passed to `check_output`,
and `convert` gets the command string passed to `check_call` and returns its
exit status. Everything else is pure: the regular expression, Python's
`str.split()`, `os.path.splitext` and the fail-fast loops.

Modules, in dependency order:

- `Base`: `Option`, `Result`, `Batch` and an order-keeping `Filter`.
  A `Batch` is the outcome of a loop that stops at its first exception:
  `Completed(done)`, or `Aborted(done, error)` holding the items finished before the failure.
- `PyStr`: Python's whitespace set, `str.split()` with no argument, `str.rfind`,
  `startswith` and `endswith`.
- `PyPath`: `posixpath.splitext`, including its rule that leading dots of the
  last path component do not start an extension.
- `Retagging`: the `.txt` test and the renaming pass.
- `Inspection`: the encoding-detection pass.
- `Conversion`: the conversion pass.
- `Listing`: the working-set listing.
- `Pipeline`: the main sequence, both as written and as evidently intended.

Each loop of the script is a method, proved equal to a function that the
properties are stated about. The two loops that can stop at an exception,
`CheckEncoding` and `ChangeEncoding`, equal recursive functions that return a
`Batch`. `ChangeFormatToCsv` equals `RenamePlan`, which filters the working set
with the `.txt` test and maps each match to its rename. `GetFileNames` equals
`FileNames`, a `Filter` of the listing.

The model follows the script's code, including these behaviours a reader
might not expect:

- Every pass is fail-fast. The first detector or converter failure raises and
  ends the run. Failures are not collected per file, and no pass continues
  after one.
- Nothing guards a rename against an existing target: `a.txt` becomes `a.csv`
  even when `a.csv` is present (`Retagging.NoCollisionGuard`).
- A record is converted when its detector output does not *start with*
  `Shift_JIS`. The test is not an exact comparison with a target encoding.
- The new name comes from the regular expression and `splitext`, not from
  swapping a suffix. So `..txt` becomes `..txt.csv` (`Retagging.RetagAllDotStem`),
  and a name ending in `.txt` plus a newline is also renamed.
- Conversion runs only after inspection went through for every file, so no
  record ever lacks detector output.

## Model

| member | source | states |
|---|---|---|
| Retagging.IsTxtNameIffPatternFound | check_format.py:129-130 | the two-position `.txt` test holds exactly when `re.search` of `.+\.txt$` finds a match span: `.txt` at the end, or just before one final newline, with a non-newline character before the dot |
| Retagging.NewlineFreeTxtName | check_format.py:129-130 | for a name without newlines the pattern matches iff the name has at least five characters and ends in `.txt`; a bare `.txt` does not match |
| Retagging.CsvNameIsNotTxt | check_format.py:129-132 | a name ending in `.csv` never matches the pattern |
| Retagging.Retagged | check_format.py:130-132 | a matching name gets a new name that ends in `.csv` and no longer matches; a non-matching name is left as it is |
| Retagging.RetagSwapsSuffix | check_format.py:131-132 | for a newline-free `.txt` name whose last path component has a non-dot stem, the new name is the old name with `.txt` replaced by `.csv` |
| Retagging.RetagAllDotStem | check_format.py:131-132 | when the last path component before `.txt` is all dots, `splitext` finds no extension and `.csv` is appended to the whole name |
| Retagging.RetagAll | check_format.py:128-135 | the names the files carry after the pass: same length, no entry matches the pattern any more, an entry keeps its name exactly when it did not match, and every matching entry now ends in `.csv` |
| Retagging.RetagAllMatchesPlan | check_format.py:128-133 | every matching name is renamed to its entry among the names after the pass, and every rename call moves a working-set name to its entry there |
| Retagging.RenamePlanIff | check_format.py:128-135 | `rename(from, to)` is issued iff `from` is a matching working-set name and `to` is its retagged name |
| Retagging.RenamePlanOrder | check_format.py:128 | rename calls follow working-set order: the calls for a prefix come before the calls for the rest |
| Retagging.PlanStep | check_format.py:128-133 | one more working-set name adds exactly its own rename call to the plan when it matches, and nothing otherwise |
| Retagging.RetagIdempotent | check_format.py:128-135 | a second pass over the renamed working set changes no name and renames nothing |
| Retagging.NoCollisionGuard | check_format.py:130-132 | nothing prevents collisions: for a non-empty, newline-free `w` whose last path component is not all dots, the distinct names `w.txt` and `w.csv` both end up as `w.csv` |
| Retagging.ChangeFormatToCsv | check_format.py:122-135 | the loop issues exactly the rename calls of the plan, in order |
| PyPath.Splitext | check_format.py:131 | root and extension concatenate back to the name |
| PyPath.SplitextExtension | check_format.py:131 | the extension is empty exactly when every dot after the last `/` has only dots before it in that component; otherwise it starts with the only dot in it, holds no `/`, and the root's last component is not all dots |
| PyStr.Split | check_format.py:91 | every token of `str.split()` is non-empty and free of whitespace |
| PyStr.SplitAppend | check_format.py:91 | splitting text that follows whitespace splits the two parts independently |
| PyStr.SplitEmptyIff | check_format.py:91-93 | `str.split()` gives no token exactly when the text is all whitespace |
| PyStr.SplitSingletonIff | check_format.py:91-93 | `str.split()` gives the text itself as its only token exactly when the text is non-empty and free of whitespace |
| PyStr.SplitFirst | check_format.py:91-93 | the first token is a maximal whitespace-free run of the text with only whitespace before it |
| PyStr.RFind | check_format.py:131 | the result is the last position holding the character, or -1 when there is none |
| Inspection.CheckArgv | check_format.py:89-91 | the argument vector of `nkf -g <name>` is `nkf`, `-g`, then the whitespace-separated fragments of the name |
| Inspection.Attribution | check_format.py:89-93 | the recorded name is the file's own name iff that name is non-empty and whitespace-free; it is missing iff the name is all whitespace; otherwise it is the name's first fragment |
| Inspection.InspectOne | check_format.py:91-101 | one iteration: when it succeeds, the recorded name is argument 2 and the detector exited with 0 and printed the label; `IndexError` happens iff there is no argument 2; a detector failure carries the non-zero exit status |
| Inspection.InspectAll | check_format.py:89-101 | the pass is fail-fast: each recorded pair is the successful step for the name at the same position; it completes with one pair per name, or stops at the first name whose step fails |
| Inspection.InspectStep | check_format.py:90-98 | one more name extends a completed prefix by exactly that name's step |
| Inspection.AbortSticks | check_format.py:99-101 | after the first failure, later names change nothing |
| Inspection.ExactAttribution | check_format.py:89-98 | for whitespace-free non-empty names, pair i is `(names[i], output of nkf -g names[i])`, and the only possible failure is the detector's on the next name |
| Inspection.CheckEncoding | check_format.py:85-101 | the loop appends exactly the pairs of the pass to `cmd_ret` and raises the pass's error when it stops early |
| Conversion.Selected | check_format.py:107-108 | a record is chosen for conversion iff its label does not start with `Shift_JIS` |
| Conversion.SelectedOrder | check_format.py:107 | selection keeps `cmd_ret` order |
| Conversion.ConvertAll | check_format.py:107-118 | the converted records are a prefix of the selected ones, each converter run exited with 0; completion converts all of them; on failure the error is the next selected record's command with its non-zero status |
| Conversion.ConvertAbortSticks | check_format.py:116-118 | after the first failed conversion, later records change nothing |
| Conversion.ShiftJisNeverConverted | check_format.py:108 | no record labelled `Shift_JIS...` is converted or fails conversion |
| Conversion.ConvertedWereRecorded | check_format.py:107-118 | every converted record is one of the records in `cmd_ret` |
| Conversion.ChangeEncoding | check_format.py:103-120 | the loop converts exactly the records of the pass and raises the pass's error when it stops early |
| Listing.FileNames | check_format.py:144-146 | a name is in the working set iff it is a listing entry whose path `dir_path + entry` is a regular file |
| Listing.FileNamesOrder | check_format.py:144 | the working set keeps listing order |
| Listing.GetFileNames | check_format.py:137-146 | the loop appends exactly the working set, in order |
| Pipeline.RunAsWritten | check_format.py:159-165 | as written, the working set is the listing's regular files, the renames are the plan for it, inspection reads the names listed at start-up, and conversion runs iff inspection completes and then covers exactly the recorded pairs |
| Pipeline.StaleNamesAsWritten | check_format.py:161-163 | as written, when every listing entry is plain (non-empty and whitespace-free), every pair recorded for a `.txt` file carries the name from before the rename, which the rename has moved away |
| Pipeline.StaleNameWitness | check_format.py:161-163 | in a directory holding only `a.txt`, the run renames it to `a.csv` and then inspects (or fails on) `nkf -g a.txt` |
| Pipeline.StaleSingleName | check_format.py:161-163 | as written, a working set of one plain (non-empty, whitespace-free) `.txt` file in `./` is renamed, and inspection still records, or fails on, the old name |
| Pipeline.Run | check_format.py:159-165 | as intended, the working set is the listing's regular files, the renames are the plan for it, inspection reads the retagged working set, and conversion runs iff inspection completes and then covers exactly the recorded pairs |
| Pipeline.RetaggedPlain | check_format.py:131-132 | retagging keeps a name non-empty and whitespace-free |
| Pipeline.InspectsRetagged | check_format.py:89-98 | inspecting a retagged working set of plain names records each file under its new name, and a failing detector run names the next new name |
| Pipeline.RunInspectsCurrentNames | check_format.py:159-165 | as intended, when every listing entry is plain (non-empty and whitespace-free), each pair and any failing command name the file as the rename left it, and every converted record names a file of the current working set |

## Left out

- Logging (`setup_logger`, `_warning`, `_debug`, `_info`, lines 48-83): no effect on the decisions modelled.
- Command-line parsing (lines 148-157): the directory and log level are parameters instead.
- Printed messages (lines 100, 110-112, 115, 117, 133): output only.
- What `nkf` does and what the filesystem holds: the detector, the converter, the listing and the regular-file test are parameters, so the model says nothing about what they return.
- Filesystem effects of the renames. The model records the `os.rename` calls and not their outcome. It also omits that `rename` resolves the bare entry name against the current directory, not `dir_path` (line 132). And it omits that `dir_path + file` has no separator when `dir_path` lacks a trailing `/` (line 145).
- `os.listdir` raising for a missing directory, and `os.rename` raising: the model has no failing listing or rename.
- `check_output` returns bytes, so `startswith('Shift_JIS')` on line 108 would raise `TypeError` at run time. The model reads the detector output as text, as the script evidently intends.
- Line 10 never imports `CalledProcessError`, so the `except` clauses on lines 99 and 116 would raise `NameError`. The model treats each clause as catching the failed command and re-raising it, which is what they evidently intend.
- `__init__` calls `setup_logger` and `_get_file_names` without `self` (lines 44, 46), so construction would raise `NameError`. The model takes the calls as method calls on the instance.
- Line 132 calls `{}.format('.csv')` on an empty dict, which raises `AttributeError`. The model takes the new name to be `root + '.csv'`, as the message on line 133 states.
- Line 114 gives `check_call` a command string without `shell=True`. On POSIX that runs a program whose name is the whole string. The model passes the command text to the converter parameter unchanged.
- Pipeline.StaleNamesAsWritten: stated for plain (non-empty, whitespace-free) entries only. For other names, line 91 splits the command text on whitespace, so the recorded name is the name's first fragment or is missing (`Inspection.Attribution`).
- Pipeline.StaleSingleName: stated for one plain name only, for the same reason.
- Pipeline.RunInspectsCurrentNames: stated for plain entries only. In the intended order too, a retagged name with whitespace is recorded under its first fragment: `my file.txt` becomes `my file.csv` and is recorded as `my`.
- Python's regular-expression engine in general: only the one pattern `.+\.txt$` under `search` is modelled.

## Findings

| source | as written | input that shows it | evidently intended | confidence | as-written member | corrected member |
|---|---|---|---|---|---|---|
| check_format.py:161-163 | the main sequence renames `.txt` files, then inspects and converts the names in `self._file_names`, which the renaming pass never updates | a directory whose only regular file is `a.txt`: it is renamed to `a.csv`, then `nkf -g a.txt` is run on a file that no longer exists | inspect and convert the files under their new names | medium, not executed | Pipeline.StaleNameWitness | Pipeline.RunInspectsCurrentNames |
