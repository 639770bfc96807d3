# typst-action entrypoint, modelled in Dafny

`entrypoint.py` is the driver of a GitHub action that batch-compiles Typst
documents. It receives three line-separated blocks (source files, output
files, global `typst` options) and splits each with `str.splitlines()`. It
then walks `zip(source_files, output_files)`: both members of each pair are
stripped, a pair whose source is empty is skipped, and every other pair is
compiled with `typst compile <in> <options...> <out>`. The outcome goes into
a dict keyed by the stripped source. Finally it logs one `✔`/`❌` line per
dict entry, in insertion order, and calls `sys.exit(1)` when some recorded
value is false.

The project has three modules:

- `PyText` (`pytext.dfy`) models `str.splitlines()` and `str.strip()`. It uses
  Python's own sets of line-boundary and whitespace characters, so `"\r\n"`
  is one break, there is no trailing empty line, and all Unicode whitespace
  counts.
- `PyDict` (`pydict.dfy`) models the insertion-ordered dict. It is a key list
  beside a map, with `d[k] = v` as `Put`. Its specification is the fold
  `FromEntries` of the assignments made, with lemmas for:
  - which keys there are;
  - their first-assignment order;
  - the last assignment to a key winning.
- `Entrypoint` (`entrypoint.dfy`) models `compile` and `main`.
  - `compile` is command construction plus the `check_returncode`
    classification.
  - The `for` loop over the zipped pairs is the method `RecordOutcomes`. It
    holds a key list and a map that it updates pair by pair. It is proved
    equal to the functions `Results` and `Issued`.
  - The summary loop over `success.items()` is the method `Summarize`.
  - The exit decision is `ExitStatus`.
  - `main` from line 34 on is `Run`.

The `typst` process is an oracle: `run(n, argv)` is the exit status of the
`n`-th compile invocation (counted from 0) with argument vector `argv`. A
process may therefore fail once and succeed later on the same command.

Exit status 1 always means that some compilation failed
(`ExitOneOnlyAfterFailure`), but status 0 does not mean that none did. When a source is listed twice, for example to produce
both a PDF and a PNG, and only its first compilation fails,
`success[in_file]` (entrypoint.py:53) keeps the later `True` and the run
exits with 0 (`LaterSuccessHidesFailure`). Whenever no source is compiled
twice, status 1 means exactly that some command failed
(`ExitOneIffFailureWhenSourcesDistinct`).

## Model

| member | source | states |
|---|---|---|
| PyText.SplitLines | entrypoint.py:34-38 | `splitlines()` gives lines without any line boundary in them; no lines exactly for the empty string; never more lines than characters |
| PyText.SplitLinesWritten | entrypoint.py:34-38 | splitting a text written as boundary-free lines, each followed by its own line ending (any Python line boundary, `\r\n` as one), with or without a final unterminated line, gives back exactly those lines and the final one if it is non-empty |
| PyText.SplitFirstWritten | entrypoint.py:34-38 | the first line of such a text comes back whole and splitting goes on right after its ending |
| PyText.SplitLinesStep | entrypoint.py:34-38 | a line followed by a line ending is split off whole and splitting continues after the ending, unless a lone `\r` is followed by `\n`, which together form one break |
| PyText.SplitLinesSingle | entrypoint.py:34-38 | a text without any line boundary is one line, or no line when empty |
| PyText.Strip | entrypoint.py:48-49 | `strip()` yields the empty string exactly when the input is all whitespace; otherwise the result starts and ends with a non-whitespace character |
| PyText.StripInfix | entrypoint.py:48-49 | the stripped string is one contiguous piece of the input with only whitespace before and after it |
| PyText.StripUnchanged | entrypoint.py:48-49 | a string that is empty or starts and ends with non-whitespace is returned unchanged |
| PyText.StripIdempotent | entrypoint.py:48-49 | stripping twice is the same as stripping once |
| PyDict.Dict.Put | entrypoint.py:53 | `d[k] = v` keeps the dict well formed (keys listed once, exactly the mapped ones), maps `k` to `v` and leaves every other key's value alone, keeps the existing keys in their places and appends at most one |
| PyDict.Dict.Items | entrypoint.py:56 | `items()` lists one `(key, value)` pair per key in insertion order |
| PyDict.FromEntries | entrypoint.py:45-53 | assigning a sequence of pairs to `{}` gives a well-formed dict with no more keys than assignments |
| PyDict.FromEntriesKeys | entrypoint.py:45-53 | the dict's keys are exactly the keys assigned |
| PyDict.FromEntriesOrder | entrypoint.py:45-53 | the keys are listed in the order of their first assignment, not moved by later ones |
| PyDict.FromEntriesLastWinsAt | entrypoint.py:53 | a key assigned at position `p` and never again afterwards holds the value assigned at `p` |
| PyDict.FromEntriesLastWins | entrypoint.py:53 | every key holds the value of its last assignment |
| PyDict.FromEntriesValues | entrypoint.py:53 | every key/value pair in the dict is one of the assignments made |
| PyDict.ReassignedKey | entrypoint.py:53 | assigning twice to the same key leaves only the second value |
| Entrypoint.Command | entrypoint.py:12 | the argv is `typst`, `compile`, the input, then the options in their given order, then the output, `|options| + 4` items long |
| Entrypoint.CommandRoundTrip | entrypoint.py:12 | a command reads back as the input, output and options it was built from |
| Entrypoint.ParseCommandRoundTrip | entrypoint.py:12 | every argv that reads as a compile command is exactly the command built from what it reads as |
| Entrypoint.CommandInjective | entrypoint.py:12 | different inputs, outputs or options never give the same command |
| Entrypoint.CheckReturncode | entrypoint.py:16-18 | `check_returncode()` raises exactly for a non-zero status, and the error carries that status and the command |
| Entrypoint.Compile | entrypoint.py:15-22 | `compile` returns true exactly when the process it starts exits with 0; a non-zero status becomes false rather than an exception |
| Entrypoint.Zip | entrypoint.py:47 | `zip` pairs elements by position and stops at the shorter list |
| Entrypoint.Pairs | entrypoint.py:47-49 | the loop sees `min(|xs|, |ys|)` pairs, each the stripped source and the stripped output of the same line |
| Entrypoint.KeptExactly | entrypoint.py:50-51 | the positions compiled are exactly those whose stripped source is non-empty, each once and in increasing order |
| Entrypoint.NonBlankAtKept | entrypoint.py:50-51 | the `t`-th pair compiled is the pair at the `t`-th non-blank position, so a skipped line drops its output too |
| Entrypoint.NonBlankNoBlank | entrypoint.py:50-51 | when no stripped source is empty, every pair is compiled |
| Entrypoint.NonBlankSources | entrypoint.py:50-51 | the sources compiled are exactly the non-empty stripped sources |
| Entrypoint.RecordOutcomes | entrypoint.py:45-53 | the loop leaves `success` equal to the fold of `success[in] = compile(...)` over the non-blank pairs, and issues exactly their commands in order |
| Entrypoint.IssuedExactly | entrypoint.py:47-53 | one command per non-blank line among the first `min(|xs|, |ys|)`, in line order, built from that line's stripped source and stripped output and the unmodified options |
| Entrypoint.TrailingLinesIgnored | entrypoint.py:47 | lines past the end of the shorter list change neither the commands nor the dict |
| Entrypoint.ResultKeys | entrypoint.py:45-53 | the dict's keys are exactly the distinct non-empty stripped sources among the zipped lines |
| Entrypoint.ResultOrder | entrypoint.py:45-53 | the dict's keys are in the order of their first occurrence among the zipped lines |
| Entrypoint.ResultLastWins | entrypoint.py:53 | each source's value is whether its last command exited with 0 |
| Entrypoint.ResultValuesFromCommands | entrypoint.py:45-53 | every recorded value is whether some command for that source exited with 0 |
| Entrypoint.Summarize | entrypoint.py:56-57 | one summary line per dict entry, in insertion order, with `✔` for true and `❌` for false |
| Entrypoint.ExitStatus | entrypoint.py:59-60 | the exit status is 0 or 1, and 1 exactly when some recorded value is false, so an empty dict gives 0 |
| Entrypoint.SummaryShowsFailure | entrypoint.py:56-60 | the run exits with 1 exactly when some summary line shows `❌` |
| Entrypoint.ExitZeroWhenAllSucceed | entrypoint.py:45-60 | when every command exits with 0, including when there are none, the run exits with 0 |
| Entrypoint.ExitOneOnlyAfterFailure | entrypoint.py:45-60 | exit status 1 implies that some command exited with a non-zero status |
| Entrypoint.ExitOneIffFailureWhenSourcesDistinct | entrypoint.py:45-60 | whenever no source is compiled twice, the run exits with 1 exactly when some command failed |
| Entrypoint.LaterSuccessHidesFailure | entrypoint.py:47-60 | with one source listed twice, where the first compilation fails and the second succeeds, both commands run and the run still exits with 0 |
| Entrypoint.EmptyOutputBlockRunsNothing | entrypoint.py:36-60 | an empty output block forms no pairs: no command runs, the dict is empty and the exit status is 0 |
| Entrypoint.Run | entrypoint.py:34-60 | `main` from the splitting on:<br>• it issues exactly the commands of the split, zipped, stripped and filtered lines;<br>• it reports one summary line per dict key in order;<br>• it exits with the status of the dict, which is 1 exactly when the summary shows a `❌` |

## Left out

- Running `typst` (entrypoint.py:15): `subprocess.run` is replaced by the oracle `run(n, argv)`, which always returns. The real call has no timeout, so a `typst` that never exits hangs `main`; that is not modelled. Failures that escape `compile` as exceptions other than `CalledProcessError` abort `main` in Python and are not modelled either: a failure to start the process (a missing executable, for example), and a `UnicodeDecodeError` when `text=True` cannot decode the captured output.
- Capturing standard output and standard error, and the error log that prints the captured stderr (entrypoint.py:15, 19): the captured text is only logged; its decoding failure is covered in the line above.
- All logging, including `logging.basicConfig` and the debug line with the joined command (entrypoint.py:13, 27, 35, 37, 43, 52, 57): the summary is returned as a sequence of (path, symbol) lines instead of being logged.
- The `typst --version` probe (entrypoint.py:40-43). Its output is only logged and never gates anything. It is also not counted among the invocations the oracle numbers.
- Reading `sys.argv` and the `IndexError` when fewer than three arguments are given (entrypoint.py:34-38): `Run` takes the three blocks directly.
- entrypoint.py:33 calls `sys.argv.join("~")`. Lists have no `join`, so on Python 3.12 and later `main` as written raises `AttributeError` before any splitting; before 3.12 the reused `"` inside the f-string is a `SyntaxError` and the module does not even import. Neither is modelled: `Run` starts at line 34, as if that log line were written `"~".join(sys.argv)`.
- `sys.exit` (entrypoint.py:59-60): the exit status is a returned integer, and a normal return is status 0.
- PyDict.Dict: the dict is a value, not an object mutated in place. `main`'s dict is local and never shared, so no aliasing is lost.
- Strings are Dafny strings of Unicode scalar values. Python's `str`, and so `sys.argv`, can also hold lone surrogates (undecodable argument bytes arrive as U+DC80 to U+DCFF), which the model cannot represent. These characters are neither whitespace nor line boundaries, so `strip` and `splitlines` treat them like any other character.
- PyText.SplitLines: its own ensures state only the shape of the result. Which lines come back is stated by `SplitLinesWritten` for every text written as lines and endings. The converse, that every text can be written that way, is not proved.
