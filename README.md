# calculation_scripts in Dafny

A Dafny model of the two scripts that drive a series of quantum-chemistry
calculations. All of its proofs are checked by the Dafny verifier.

- `run_calc.py` sets a run up:
  - `make_dirs` creates one directory `{name}_{s}{e}_{i}_{basis}` for each
    interpolated structure and writes the structure into its `system.xyz2`.
  - When a name is already taken, `make_dirs` either reuses a directory of
    the run that already holds the same structure, or moves the step to the
    index `i + (number of entries the run's glob matches)`.
  - `write_coms` decodes each directory's name into its four `_`-separated
    fields and writes a Gaussian input (`mo/hf_sp.com`) built from them.
- `read_calc.py` reads the results back:
  - `status` sorts the job logs into four buckets: success, optimisation
    failed, code failed and still running. A fixed priority decides the
    bucket.
  - `extract_results` decodes the metadata that the directory layout of
    every successful log under the working directory carries, and reads
    the log's final energy.
  - `select_results` picks one series: records whose system matches a shell
    wildcard and whose basis, orbital and wavefunction match exactly. It
    returns their x values (the system's suffix after its last underscore,
    converted to an int64 integer) and energies as two parallel lists.

Modules:

| file | module | contents |
|---|---|---|
| `wrappers.dfy` | `Wrappers` | `Option`, `Result` |
| `sequences.dfy` | `Sequences` | order-preserving subsequence |
| `text.dfy` | `Text` | substring search, `str.split`, `str.join`, `str.rsplit(c, 1)` |
| `decimal.dfy` | `Decimal` | `str(int)` and `int(str)` on decimal digits |
| `wildcard.dfy` | `Wildcard` | `fnmatch` with `*` and `?` |
| `read_calc.dfy` | `ReadCalc` | `status`, `extract_results`, `select_results` |
| `run_calc.dfy` | `RunCalc` | `make_dirs`, `write_coms` and the class `WorkDir` |
| `pipeline.dfy` | `Pipeline` | what `read_calc` reads back from `run_calc`'s directory names |

How the file system is modelled:

- In `read_calc`, the file system is replaced by what it answers:
  - a glob is the sequence of `Artifact`s it matched, each an absolute,
    normalised path as a list of segments together with the file's content;
  - the working directory is a segment list.
- In `run_calc`, the working directory is a `map` from entry names to
  entries, held in the field `entries` of the class `RunCalc.WorkDir`.
  - A directory records its `system.xyz2` content, if any, and the state of
    its `mo` subdirectory.
  - The methods `MakeDirs` and `WriteComs` update that map in place.
  - Each method is proved equal to a step function (`ProvisionStep`,
    `ComStep`) folded over its inputs. The lemmas state their properties
    over those functions.
- The exceptions that abort a call in the scripts are `Err` or
  `Some(error)` values in the model:
  - `NotImplementedError` for an unsupported layout;
  - `ValueError` from a failed unpack, from `int` on a template index, and
    from `np.array(output_x, dtype=int)` on an x that is not an integer;
  - `OverflowError` from `np.array(output_x, dtype=int)` on an x outside
    numpy's int64 range, the default integer type on 64-bit POSIX;
  - `AttributeError` from `.group` on a failed search;
  - `IndexError` from `rsplit('_', 1)[1]` and from `split('_')[1]` of a
    template name without `_`;
  - `FileExistsError` from `os.mkdir`;
  - a missing `system.xyz2`.
- This list is not complete. "## Left out" names the exceptions the model
  does not raise. Among them are the `ValueError` of
  `np.array(output_y, dtype=float)`, the errors of opening a matched name
  that is not a readable file, and the errors `str.format` raises on a name
  with braces. Exceptions of the library code the scripts call are also
  left out, and so are the resource errors any Python program can raise.
- Files are written and read in text mode on a POSIX system.
  - A write stores the text as it is.
  - A read translates `\r\n` and a lone `\r` into `\n` (`Text.ReadText`).
  - A `system.xyz2` is compared with the new structure, and handed to
    `make_com`, in that translated form.

Behaviour the model keeps exactly as the code has it:

- The traceback test at `read_calc.py:29` is a regular expression whose
  parentheses form a group.
  - It looks for `Traceback most recent call last:`, without parentheses.
  - A real Python traceback header therefore does not match it, and a log
    holding only that header is classified as running
    (`ReadCalc.PythonTracebackHeaderIsRunning`).
- `Final Energy: (.+)$` has no MULTILINE flag, so it finds a value only on
  the last line of a log, with at most one trailing newline.
- `extract_results` reads only the logs in the success bucket of `status`.
- Relocation moves a step to `i + (number of entries the run's glob matches)`.
  Nothing guarantees that this name is free: `RunCalc.RelocationCollides`
  gives a listing where it is taken, and `os.mkdir` then raises.
- `make_dirs` is idempotent only for structures without carriage returns.
  A structure written with `\r\n` reads back with `\n`, so it no longer
  compares equal to itself. A second run therefore creates a second
  directory (`RunCalc.CarriageReturnDefeatsReuse`).
- `write_coms` creates `mo` before it reads `system.xyz2`. A directory
  without a structure file therefore keeps the new `mo` when the call fails.

## Model

| member | source | states |
|---|---|---|
| ReadCalc.Classify | read_calc.py:25-32 | the if/elif chain: success when the success marker occurs, else optimisation failure when its marker occurs, else code failure when the traceback text occurs, else running; its meaning is stated by the lemmas below |
| ReadCalc.SuccessWins | read_calc.py:25-26 | a log holding the success marker anywhere is a success, whatever else it holds |
| ReadCalc.OptFailureOutranksTraceback | read_calc.py:25-30 | a log holding the optimisation-failure marker is a success or an optimisation failure, never a code failure or running |
| ReadCalc.TracebackIsNotRunning | read_calc.py:25-32 | a log holding the traceback marker is never classified as running |
| ReadCalc.RunningIffNoMarker | read_calc.py:25-32 | a log is running exactly when none of the three markers occurs at any index (both directions) |
| ReadCalc.EmptyIsRunning | read_calc.py:31-32 | the empty log is running |
| ReadCalc.HeaderLacksTracebackMarker | read_calc.py:29 | the literal text `Traceback (most recent call last):` does not contain what the regular expression matches |
| ReadCalc.HeaderLacksOptimizationMarkers | read_calc.py:25-27 | that header contains neither optimisation marker |
| ReadCalc.PythonTracebackHeaderIsRunning | read_calc.py:29-32 | a log holding only a Python traceback header is classified as running, not as a code failure |
| ReadCalc.WithStatus | read_calc.py:17-32 | the list one bucket receives: the matches classified into it, in glob order; the lemmas below state its membership, order and partition |
| ReadCalc.Status | read_calc.py:17-34 | the four lists returned by the loop are, for each bucket, the matches classified into it, in glob order |
| ReadCalc.StatusPartition | read_calc.py:17-34 | the four buckets together are a permutation of the input: every file is in exactly one bucket, as often as it was matched |
| ReadCalc.WithStatusMembers | read_calc.py:21-32 | a file is in a bucket exactly when it was matched and its log classifies into that bucket |
| ReadCalc.WithStatusKeepsOrder | read_calc.py:21-32 | each bucket is a subsequence of the matches: input order is kept |
| ReadCalc.WithStatusAppend | read_calc.py:21-32 | bucketing two lists of matches one after the other is bucketing each and concatenating the results |
| ReadCalc.SearchFrom | read_calc.py:75 | `re.search` from a start index: the leftmost position where `Final Energy: ` is followed by a capture of `(.+)$`; sound and complete by the lemmas below |
| ReadCalc.FinalEnergy | read_calc.py:75-76 | `re.search(...).group(1)`, absent where the search returns None |
| ReadCalc.GroupAt | read_calc.py:75-76 | the capture of `(.+)$` at an index is the rest of the log less one trailing newline when that is non-empty and free of newlines, and it is the only such value |
| ReadCalc.SearchFromSound | read_calc.py:75 | a value found by the search comes from an occurrence of `Final Energy: ` from the start index on |
| ReadCalc.FinalEnergySound | read_calc.py:75-76 | a final energy is non-empty and has no newline; it follows an occurrence of `Final Energy: ` and runs to the end of the log, or to a single final newline |
| ReadCalc.SearchFromComplete | read_calc.py:75 | when the expression matches at some index, the search finds a value at least as long as that match |
| ReadCalc.FinalEnergyComplete | read_calc.py:75-76 | when the expression matches anywhere, a final energy is found |
| ReadCalc.SearchSkipsEarlierLines | read_calc.py:75 | without MULTILINE, starting the search anywhere before the start of a line is the same as starting it at that line |
| ReadCalc.FinalEnergyOfLastLine | read_calc.py:75-77 | a log whose last line is `Final Energy: v` (with or without a final newline) yields `v`, whatever the earlier lines say |
| ReadCalc.DecodePath | read_calc.py:58-71 | any segment count other than 4 or 6 is `UnsupportedLayout`; otherwise decoding fails exactly when `system_basis` has no `_`, with `NoBasisSeparator` of that segment; `system + "_" + basis` is that segment and `basis` has no `_`; 6 segments give `wfn` and `index` from segments 4 and 5, 4 segments give `wfn = "hf"` and no index |
| ReadCalc.DecodeEncode | read_calc.py:58-71 | storing metadata the layout can express and decoding its path gives the metadata back |
| ReadCalc.EncodeDecode | read_calc.py:58-71 | every path the decoder accepts is the stored form of the metadata it yields |
| ReadCalc.DecodeArtifact | read_calc.py:58-77 | the loop body for one file: the layout error comes first, then the missing energy; otherwise the record of the decoded metadata and the final energy |
| ReadCalc.ExtractFrom | read_calc.py:48-79 | the extraction loop: files outside the working directory are skipped and the first error aborts; its meaning is `ExtractFromMeaning` |
| ReadCalc.Extract | read_calc.py:46-81 | `extract_results`: the extraction loop over the success bucket of `status`; its meaning is `ExtractMeaning` |
| ReadCalc.Relative | read_calc.py:50-53 | a path is kept exactly when the working directory is a prefix of it, and the relative path is what follows that prefix |
| ReadCalc.InRoot | read_calc.py:50-52 | the kept files are matched files under the working directory |
| ReadCalc.InRootMembers | read_calc.py:50-52 | a file is kept exactly when it was matched and lies under the working directory |
| ReadCalc.ExtractResults | read_calc.py:46-81 | the loop returns what `Extract` specifies: the first failure aborts it, otherwise the records come in order |
| ReadCalc.ExtractFromOkIff | read_calc.py:48-79 | extraction succeeds exactly when every file under the working directory decodes |
| ReadCalc.ExtractFromValues | read_calc.py:48-79 | on success there is one record per file under the working directory, and the k-th record is the decoding of the k-th such file |
| ReadCalc.ExtractFromErrorOrigin | read_calc.py:48-79 | on failure, the error is the decoding error of the first file under the working directory, in glob order, that does not decode; every earlier such file decodes |
| ReadCalc.ExtractFromMeaning | read_calc.py:48-79 | the three statements above together |
| ReadCalc.ExtractMeaning | read_calc.py:46-81 | the same for `extract_results` on the glob: the files read are the successful logs under the working directory, and a failure carries the error of the first of them that does not decode |
| ReadCalc.ExtractFromSkips | read_calc.py:50-52 | a file outside the working directory can be removed from the input without changing the outcome |
| ReadCalc.ExtractIgnoresOutsideRoot | read_calc.py:50-52 | a file outside the working directory never influences `extract_results`: neither its records nor its errors |
| ReadCalc.UnsupportedLayoutAborts | read_calc.py:67-68 | one successful log under the working directory with neither 4 nor 6 segments makes the whole call fail |
| ReadCalc.MissingEnergyAborts | read_calc.py:75-76 | a successful log under the working directory whose layout decodes but which has no `Final Energy:` match makes `extract_results` raise AttributeError (`NoFinalEnergy` of its relative path), when every earlier candidate decodes |
| Wildcard.Matches | read_calc.py:104 | `fnmatch.fnmatch` on POSIX: `*` matches any run of characters, `?` exactly one, every other character itself; see the `Wildcard` lemmas |
| ReadCalc.Wanted | read_calc.py:104-107 | the filter: the system matches the wildcard and basis, orbital and wavefunction are equal |
| ReadCalc.Selected | read_calc.py:103-108 | the records that pass the filter, in input order; see `SelectedMembers` and `SelectedKeepsOrder` |
| ReadCalc.SelectFrom | read_calc.py:101-111 | the selection loop: on success its two columns have equal length, at most the input length; their contents are stated by `SelectColumns` |
| ReadCalc.XValue | read_calc.py:109 | x is the text after the last `_` of the system: it is absent exactly when the system has no `_`; it contains no `_`; it is preceded by a `_` and ends the system |
| ReadCalc.SelectResults | read_calc.py:101-112 | the loop followed by the int64 conversion returns what `Select` specifies |
| ReadCalc.IntColumn | read_calc.py:112 | `np.array(xs, dtype=int)`: it succeeds exactly when every x reads as an integer in the int64 range, and then the k-th integer is the value of the k-th x; otherwise the error is that of the first x that does not convert, `NotAnInteger` (ValueError) or `OutOfRange` (OverflowError) |
| ReadCalc.Int64Of | read_calc.py:112 | the conversion of one element by `dtype=int`: `NotAnInteger` (ValueError) for text `int` rejects, `OutOfRange` (OverflowError) outside int64, otherwise the integer; its properties are stated by `IntColumn`, `SelectMeaning` and `HugeXRaises` |
| ReadCalc.Select | read_calc.py:101-112 | `select_results` as a whole: the selection loop, whose errors come first, then the int64 conversion of the x column |
| ReadCalc.SelectMeaning | read_calc.py:101-112 | `select_results` succeeds exactly when every selected system has an x that reads as an integer in the int64 range; then entry k holds that integer and the energy of the k-th selected record. An IndexError of the loop is the result even when a conversion would also fail; it names the first selected system without `_`. Otherwise the error is that of the first selected x that does not convert |
| ReadCalc.NonIntegerXRaises | read_calc.py:112 | an `h2_eq` point selected by `h2_*` makes the conversion raise ValueError |
| ReadCalc.HugeXRaises | read_calc.py:112 | an `h2_<n>` point with n of 2^63 or more makes the conversion raise OverflowError |
| ReadCalc.SelectedMembers | read_calc.py:103-108 | a record is selected exactly when it is in the input and matches the system wildcard and the basis, orbital and wavefunction |
| ReadCalc.SelectedKeepsOrder | read_calc.py:103-108 | the selected records keep input order |
| ReadCalc.SelectFailsIff | read_calc.py:103-109 | selection succeeds exactly when every selected system has a `_` |
| ReadCalc.SelectColumns | read_calc.py:101-111 | on success the two outputs have the length of the selection, the k-th x is the x value of the k-th selected record and the k-th energy is its energy |
| ReadCalc.SelectSkips | read_calc.py:104-108 | an unwanted record contributes nothing and cannot fail the call |
| ReadCalc.SelectTakes | read_calc.py:109-111 | a wanted record puts its x value and its energy at the head of the two outputs |
| ReadCalc.H2PointWanted | read_calc.py:104-109 | an `h2_<x>` hydrogen record in basis `sto3g`, orbital `rhf`, wavefunction `hf` is wanted by the series `h2_*` and has x value `x` |
| ReadCalc.H2OtherRejected | read_calc.py:104-108 | a record whose system does not start with `h2_` is not in that series |
| ReadCalc.H2SeriesScenario | read_calc.py:101-111 | selecting the series from two hydrogen points with an unrelated record between them gives their x values and energies, in order |
| ReadCalc.H2SeriesValues | read_calc.py:101-112 | for points `h2_<n0>` and `h2_<n1>` with n0 and n1 in the int64 range and an unrelated record between them, `select_results` returns the integers `[n0, n1]` and the two energies |
| RunCalc.TemplateIndex | run_calc.py:29-30 | `int(template.split('_')[1])`, absent where Python raises; a template with an index contains `_` |
| RunCalc.TemplateIndexOf | run_calc.py:29-30 | the template index is the integer written in the second `_`-separated field |
| RunCalc.TemplateWithoutSeparator | run_calc.py:29-30 | a template name without `_` has no index, and the call fails |
| RunCalc.DirName | run_calc.py:32-34 | `dir_basename.format(i)`: `{name}_{s}{e}_{i}_{basis}` with `str` of the indices; see the three lemmas below |
| RunCalc.Pattern | run_calc.py:39 | `dir_basename.format('*')`, the glob for every directory of the run |
| RunCalc.Others | run_calc.py:39 | what `glob.glob` lists: every entry, directory or file, whose name matches the pattern |
| RunCalc.Held | run_calc.py:41-48 | some listed entry is a directory whose `system.xyz2`, read back in text mode, equals the new structure |
| RunCalc.DirNameMatchesPattern | run_calc.py:32-39 | every step's directory name matches the glob `dir_basename.format('*')` |
| RunCalc.DirNameInjective | run_calc.py:32-34 | different steps get different directory names |
| RunCalc.DirNameFields | run_calc.py:100 | for a name and basis without `_`, a directory name splits into exactly the four fields name, templates, step and basis |
| RunCalc.Create | run_calc.py:59-65 | `os.mkdir` then the write of `system.xyz2`: raises on a taken name, otherwise adds the directory holding the structure as written |
| RunCalc.ProvisionStep | run_calc.py:37-65 | one loop iteration: reuse, relocation or creation; its cases are stated by the lemmas below |
| RunCalc.ProvisionFrom | run_calc.py:33-65 | the loop from step i on: steps in order, the first raise stops it and keeps earlier steps |
| RunCalc.MakeDirsSpec | run_calc.py:29-65 | `make_dirs`: both template indices are parsed first, then the steps run from 0 |
| RunCalc.ProvisionFromStep | run_calc.py:33-65 | a run from step i is step i followed by the run from i + 1, and stops at the first error |
| RunCalc.FreeNameCreates | run_calc.py:37-65 | when the step's name is free, exactly that directory is added and its `system.xyz2` is written with the structure |
| RunCalc.FileAtNameFails | run_calc.py:37-60 | when a plain file has the step's name, `os.mkdir` raises |
| RunCalc.ReuseWhenHeld | run_calc.py:41-57 | when the name is a directory and some directory of the run reads back as the same structure, nothing changes |
| RunCalc.RelocateWhenNotHeld | run_calc.py:49-54 | when the name is a directory and no directory of the run reads back as the structure, the step moves to index `i + (number of entries the run's glob matches)`, which is larger than `i`, and nothing that existed changes |
| RunCalc.StepExtends | run_calc.py:37-65 | a successful step changes no existing entry and adds at most one directory, which is new, matches the run's glob and holds the structure |
| RunCalc.StepEstablishes | run_calc.py:37-65 | after a successful step with a structure free of carriage returns, the step's name is a directory and the run holds its structure |
| RunCalc.HeldMonotone | run_calc.py:39-48 | a structure the run holds stays held when entries are only added |
| RunCalc.RunExtends | run_calc.py:33-65 | a run, even one that fails, changes no entry that existed |
| RunCalc.RunEstablishes | run_calc.py:33-65 | after a successful run over structures free of carriage returns, every step's name is a directory and every structure is held by the run |
| RunCalc.RunNoop | run_calc.py:33-57 | when every step is already provisioned, a run changes nothing and succeeds |
| RunCalc.MakeDirsIdempotent | run_calc.py:29-65 | after a successful `make_dirs` over structures free of carriage returns, calling it again with the same arguments changes nothing and succeeds |
| RunCalc.FreshRun | run_calc.py:33-65 | when no name of the run exists yet, the run succeeds and step k's directory holds the k-th structure |
| RunCalc.RelocationCollides | run_calc.py:49-60 | {dir 0 holding A, dir 2 holding C} with structure B at step 0 relocates to index 2 and fails, because that name is taken |
| RunCalc.CarriageReturnDefeatsReuse | run_calc.py:45-65 | a first run with structure `C\r\n` creates directory 0; a second run reads it back as `C\n`, does not reuse it, and creates directory 1 |
| RunCalc.RequestFor | run_calc.py:101-113 | the arguments of `make_com` for the fields `system`, `templates`, `index`, `basis` of a directory name |
| RunCalc.ComStep | run_calc.py:97-116 | one loop iteration of `write_coms`; its cases are stated by `ComStepSkips` (not a directory), `ComStepBadName` (the unpack fails), `ComStepMo` (`mo` and the missing structure) and `ComStepOnDirName` (the request written) |
| RunCalc.ComFrom | run_calc.py:97-116 | the loop over the glob's list: the first raise stops it and keeps earlier steps |
| RunCalc.ComStepSkips | run_calc.py:98-99 | a match that is not a directory is skipped without an error |
| RunCalc.ComStepBadName | run_calc.py:100 | a directory whose basename does not split into four `_`-separated fields makes the unpack raise ValueError (`BadDirName`) before anything is changed |
| RunCalc.ComStepFrame | run_calc.py:97-116 | a step changes only the directory it handles, keeps the directory a directory and keeps its structure |
| RunCalc.ComStepMo | run_calc.py:103-109 | `mo` is created only when absent; a file named `mo` fails the step (both directions); a missing `system.xyz2` fails it after `mo` exists (both directions) |
| RunCalc.ComStepOnDirName | run_calc.py:100-116 | for a directory made by `make_dirs`, the request gets the structure as read back in text mode, basis `basis/<basis>`, `hf_sp.chk`, `2gb`, charge 0, multiplicity 1 and the title `HF/basis/<basis> calculation for <name>/<templates>/<step>`; its result is stored as `mo/hf_sp.com` |
| RunCalc.ComStepIdempotent | run_calc.py:97-116 | after a successful step the directory is done: a second step on it changes nothing |
| RunCalc.ComStepKeepsDone | run_calc.py:97-116 | a step on another directory leaves a done directory done |
| RunCalc.ComFromDone | run_calc.py:97-116 | after a successful `write_coms`, every listed directory is done |
| RunCalc.ComFromKeepsDone | run_calc.py:97-116 | a run of `write_coms` leaves every done directory done |
| RunCalc.ComFromNoop | run_calc.py:97-116 | over directories that are all done, `write_coms` changes nothing and succeeds |
| RunCalc.WriteComsIdempotent | run_calc.py:97-116 | calling `write_coms` again after it succeeded changes nothing |
| RunCalc.WorkDir.HasHolder | run_calc.py:41-48 | the search loop with `break` sets the flag exactly when one of the listed directories has a `system.xyz2` that reads back as the structure |
| RunCalc.WorkDir.MakeDirs | run_calc.py:8-65 | the listing and the error after the loop are those of `MakeDirsSpec` on the listing before it |
| RunCalc.WorkDir.WriteComs | run_calc.py:76-116 | the listing and the error after the loop are those of `ComFrom` on the listing before it |
| Pipeline.DecodeRunDirectory | read_calc.py:64-71 | a 4-segment path through a directory that `make_dirs` named decodes to system `{name}_{s}{e}_{i}`, the run's basis and `wfn = "hf"` |
| Pipeline.RunSystemX | read_calc.py:109 | the x value of such a system is the step index as written |
| Pipeline.RunSystemIndex | read_calc.py:109-112 | `int` of that x value gives back the step index; `dtype=int` gives it back when it is below 2^63 and raises OverflowError otherwise |
| Text.Contains | read_calc.py:25-29 | `re.search` of a pattern free of metacharacters: the scan over start positions |
| Text.Split | run_calc.py:29 | `str.split(c)`: at least one field, none containing `c`, and exactly one field when `c` does not occur |
| Text.RSplitLast | read_calc.py:69 | `str.rsplit(c, 1)`: absent exactly when `c` does not occur; otherwise the parts around the last `c` |
| Text.ReadText | run_calc.py:45-46 | `f.read()` in text mode: `\r\n` and lone `\r` become `\n`, so the result has no carriage return |
| Text.ReadTextFixedIff | run_calc.py:45-46 | a text reads back unchanged exactly when it has no carriage return |
| Text.ContainsIffOccurs | read_calc.py:25-29 | the substring search succeeds exactly when the marker occurs at some index |
| Text.JoinSplit | run_calc.py:100 | joining the fields of `split` gives back the string |
| Text.SplitJoin | run_calc.py:100 | splitting the join of separator-free fields gives back the fields |
| Text.RSplitLastOf | read_calc.py:69 | `rsplit(c, 1)` of `a + c + b` with `b` free of `c` is `(a, b)` |
| Decimal.IntToString | run_calc.py:32 | `str` of an integer, with `-` for negatives; it never contains `_` |
| Decimal.NatToString | run_calc.py:32-34 | the decimal text of a step index, as `format` writes it: non-empty, digits only, no `_`; read back by `NatRoundTrip` |
| Decimal.ParseInt | run_calc.py:29-30 | `int(s)` for an optional sign followed by ASCII digits; absent where Python raises ValueError |
| Decimal.NatParsesAsInt | read_calc.py:112 | `int(str(n)) == n` for a natural number |
| Decimal.NatRoundTrip | run_calc.py:32-34 | reading back the decimal text of a step index gives the index |
| Decimal.IntRoundTrip | run_calc.py:29-32 | reading back the decimal text of any integer, signs included, gives the integer |
| Wildcard.LiteralMatchesIff | read_calc.py:104-105 | a pattern without wildcards matches its own text and nothing else |
| Wildcard.LiteralStarIff | read_calc.py:104 | a literal followed by `*` matches exactly the names the literal begins |
| Wildcard.MatchesConcat | run_calc.py:39 | the concatenation of matches matches the concatenated pattern |

## Left out

- Real file and process I/O is not modelled: `open`, `glob.glob`, `os.mkdir`, `os.path.*`, `os.getcwd` and `shutil.copyfile`.
  - A glob is an input sequence, and its order is part of the input.
  - Glob answers and file contents are parameters, and so is the working directory listing.
- The basis-file copy and its `print` (`run_calc.py:67-73`) are not modelled. They only copy a file or write to the console, and nothing else in the scripts reads their effect.
- `make_xyz.xyz_from_templates` and `make_com` are code outside these scripts, so they are not modelled:
  - the generated structures are the input sequence `xyzs`;
  - `make_com` is the function parameter `makeCom`.
- Several things `make_dirs` and `write_coms` do are not modelled:
  - the `num_steps` argument only feeds `make_xyz`;
  - the default argument `num_steps=10`;
  - the `gbs` file in each directory.
- ReadCalc.Select: the `np.array(output_y, dtype=float)` conversion is not modelled, because there are no floating-point numbers here.
  - The energies stay the strings the logs hold.
  - The `ValueError` that this conversion raises for an energy that is not a float literal is not modelled.
  - The `dtype=int` conversion of the x values is modelled, by `ReadCalc.IntColumn` with `Decimal.ParseInt` and the int64 range of numpy's default integer on 64-bit POSIX. A platform whose default integer is 32 bits wide is not modelled.
- ReadCalc.Status: every glob match is taken to be a readable file.
  - A matched directory or an unreadable file makes `open` raise inside `status` (`read_calc.py:22`); that error is not modelled.
  - Contents are given as text-mode `f.read()` returns them, so character decoding and its `UnicodeDecodeError` are not modelled.
- Text.ReadText: models a POSIX system only. Elsewhere a text-mode write would also turn `\n` into the system's line separator. Character encoding is not modelled.
- RunCalc.StepEstablishes: holds only for a structure without carriage returns. With them the source does not establish it: `RunCalc.CarriageReturnDefeatsReuse`.
- RunCalc.RunEstablishes: holds only for structures without carriage returns, for the same reason.
- RunCalc.MakeDirsIdempotent: holds only for structures without carriage returns, for the same reason. With them a second `make_dirs` creates new directories.
- Wildcard.Matches: `[seq]` and `[!seq]` character classes and glob's rule that `*` does not match a leading `.` are not modelled; `[` is an ordinary character.
- RunCalc.Others: `Wildcard.Matches` lets `*` match `/`, where `glob.glob` keeps `*` inside one path segment. The two agree because the listing holds top-level names only and `name` and `basis` are taken to contain no `/`.
- Decimal.ParseInt: is narrower than Python's `int()`. It accepts only an optional sign followed by ASCII digits, and rejects surrounding whitespace, `_` digit separators and non-ASCII digits.
- RunCalc.DirName: assumes that `name` and `basis` contain no `{` or `}`. With braces, `str.format` would read them as further fields.
- ReadCalc.Relative: assumes a working directory other than `/`. For `/`, `filename[len(cwd)+1:]` drops the first character of the relative path. Normalisation by `os.path.abspath` is taken as done on the input paths.
- RunCalc.ComStep: the glob pattern of `write_coms` is taken to list top-level names, so the `os.path.split(parent)[1]` of a pattern with directory parts is not modelled.
- Regular expressions in general are not modelled. Each marker is the fixed text the expression matches, and `Final Energy: (.+)$` is modelled as a leftmost search with Python's `$`.
- Several features are not modelled, because these scripts do not implement them:
  - running-log column parsing;
  - nuclear repulsion;
  - binary result arrays;
  - min, all and most-frequent reductions over samples.
