# ebits: distinct-address counting for ASLR entropy, in Dafny

`ebits.py` estimates how much address-space layout randomisation a target
program gets. It runs the target `./where` again and again. On each run it
looks through the captured output for the first line that mentions a chosen
region (the `libssl` library, the `where` executable, or the `stack`). It
takes the text before the first `-` on that line as the region's base
address. It keeps every address it has seen as a key of the module-level
dictionary `addrs`, and after each run it prints `len(addrs)`, the number of
distinct addresses seen so far.

This project models that core:

- `Text` (text.dfy): Python's `key in line` (`Contains`) and
  `line.split("-")` (`Split`, with field 0 as `FirstField`). `Contains` is
  proved equal to "occurs at some index", in both directions. `Split` is
  proved lossless (`Join` gives the string back) with every field free of
  the separator.
- `MapSampler` (map_sampler.dfy): `FirstMatch`, the key one call of `run`
  extracts from a list of output lines, or `None`. The lemmas show that it
  comes from the first matching line, that later lines are never looked at,
  and that the key is a `-`-free prefix of that line.
- `EntropyTracker` (entropy_tracker.dfy): the dictionary `addrs` as the
  class `Tracker`. Its method `Run` is `run`: a `for` loop over the lines
  that inserts field 0 of the first match and then `break`s. `Run` is proved
  against `Record`, the dictionary update of one call.
- `ModeSelection` (mode_selection.dfy): the `if/elif` chain of `main`, which
  maps `-d`, `-e` and `-s` to `"libssl"`, `"where"` and `"stack"` in that
  priority order, or fails with exit status -1 when no flag is set.
- `Observation` (observation.dfy): the `while True` loop, bounded to a
  finite sequence of captured outputs (`Observe`), and `main` (`Measure`).
  The counts printed are proved to be the number of distinct keys seen so
  far. They are proved never to decrease and to grow by at most one per
  sample. The final set of keys is proved not to depend on sample order.

The target's output reaches the model as a sequence of lines per sample.
Which lines the target prints is a parameter: the process launch is not
modelled.

Two behaviours of the code are worth stating plainly:

- A matched line with no `-` yields the whole line as the key, because
  `line.split("-")[0]` is then the entire line (`MapSampler.NoDelimiterExample`).
- `-d` wins over `-e`, which wins over `-s`; several flags are not rejected.

## Model

| member | source | states |
|---|---|---|
| `Text.Contains` | ebits.py:17 | no contract of its own: `key in line`, specified by `Text.ContainsIffOccurs` and `Text.MissingFirstCharNotContained` |
| `Text.Split` | ebits.py:18 | `line.split("-")`, with at least one field; specified by `Text.JoinSplit`, `Text.SplitFieldsSeparatorFree` and `Text.SplitHead` |
| `Text.ContainsIffOccurs` | ebits.py:17 | `key in line` holds exactly when `key` occurs as a contiguous slice of `line` at some index |
| `Text.MissingFirstCharNotContained` | ebits.py:17 | a line lacking the key's first character does not contain the key |
| `Text.JoinSplit` | ebits.py:18 | `split("-")` loses nothing: joining the fields with `-` gives the line back |
| `Text.SplitFieldsSeparatorFree` | ebits.py:18 | no field of `split("-")` contains `-` |
| `Text.SplitHead` | ebits.py:18 | field 0 of the split is a `-`-free prefix of the line, followed by `-` or by the end of the line |
| `Text.FirstField` | ebits.py:18-20 | `data[0]` is a prefix of the line, has no `-`, stops at the first `-`, and is the whole line when there is no `-` |
| `Text.FirstFieldUnique` | ebits.py:18-20 | those properties determine `data[0]` uniquely |
| `MapSampler.AddressKey` | ebits.py:18-20 | no contract of its own: `data[0]` for the separator `-`, specified by `Text.FirstField` |
| `MapSampler.FirstMatch` | ebits.py:16-21 | no contract of its own: the key one call of `run` stores, or none; specified by `MapSampler.FirstMatchNone`, `MapSampler.FirstMatchAt`, `MapSampler.FirstMatchFrom` and `MapSampler.FirstMatchIgnoresLater` |
| `MapSampler.FirstMatchNone` | ebits.py:16-17 | the scan extracts nothing exactly when no line contains the key |
| `MapSampler.FirstMatchAt` | ebits.py:16-21 | when line i is the first line containing the key, the extracted key is line i's field 0 |
| `MapSampler.FirstMatchFrom` | ebits.py:16-21 | an extracted key always comes from the first line containing the key |
| `MapSampler.FirstMatchIgnoresLater` | ebits.py:16-21 | because of the `break`, lines after the first match do not affect the result |
| `MapSampler.FirstMatchKeyShape` | ebits.py:16-20 | an extracted key is a `-`-free prefix of a line that contains the lookup key |
| `MapSampler.ExtractionExample` | ebits.py:16-21 | for lines `aaaa-extra`, `bbbb-libssl-loaded`, `cccc-other` and key `libssl` the key is `bbbb` |
| `MapSampler.MatchWithoutDelimiter` | ebits.py:17-20 | when the first matching line has no `-`, the stored key is the whole line |
| `MapSampler.NoDelimiterExample` | ebits.py:17-20 | a matched line without `-` (`libsslloaded`) yields the whole line as key |
| `EntropyTracker.Record` | ebits.py:20 | no contract of its own: `addrs[data[0]] = True` when a key was extracted, else no change; specified by `EntropyTracker.RecordAtMostOne`, `EntropyTracker.RecordPresent`, `EntropyTracker.RecordAbsent` and `EntropyTracker.RecordNothing` |
| `EntropyTracker.RecordNothing` | ebits.py:16-20 | when no output line contains the key, `addrs` is unchanged |
| `EntropyTracker.RecordAtMostOne` | ebits.py:20 | one call keeps every key, adds at most the one extracted key, and grows the length by 0 or 1 |
| `EntropyTracker.RecordPresent` | ebits.py:20 | re-storing a key already present leaves `addrs` and `len(addrs)` unchanged |
| `EntropyTracker.RecordAbsent` | ebits.py:20 | storing a new key adds exactly one to `len(addrs)` |
| `EntropyTracker.Tracker.constructor` | ebits.py:7 | `addrs` starts as the empty dictionary |
| `EntropyTracker.Tracker.Count` | ebits.py:46 | no contract of its own: the accessor `len(addrs)`; `Observation.Observe` ties the counts it reads to `Observation.Reports`, whose meaning `Observation.ReportsCountDistinct` and `Observation.FinalCountDistinct` prove |
| `EntropyTracker.Tracker.Run` | ebits.py:11-21 | `run` updates `addrs` by the first match's key (or not at all), keeps all values True, and changes the count by 0 or 1 |
| `ModeSelection.SelectKey` | ebits.py:34-42 | no contract of its own: the `if/elif` chain; specified by `ModeSelection.SelectKeyIsFirstSet` and `ModeSelection.SelectKeyCases` |
| `ModeSelection.FirstSet` | ebits.py:34-42 | a priority chain picks the key of the first set flag, and reports usage error -1 exactly when no flag is set |
| `ModeSelection.SelectKeyIsFirstSet` | ebits.py:34-42 | `main`'s chain is the priority list `-d` libssl, `-e` where, `-s` stack |
| `ModeSelection.SelectKeyCases` | ebits.py:34-42 | each outcome and exactly when it happens: libssl iff `-d`; where iff `-e` without `-d`; stack iff only `-s` of the three; exit -1 iff no flag |
| `Observation.Accumulate` | ebits.py:44-45 | no contract of its own: `addrs` after `run` on each sample in turn; specified by `Observation.AccumulateKeys`, `Observation.AccumulateAllTrue` and `Observation.CountOrderIndependent` |
| `Observation.Reports` | ebits.py:44-46 | no contract of its own: the numbers printed, one per sample; specified by `Observation.ReportsAt`, `Observation.ReportsCountDistinct`, `Observation.ReportsStep`, `Observation.ReportsFirst` and `Observation.ReportsMonotone` |
| `Observation.AccumulateKeys` | ebits.py:44-45 | after any samples, the keys of `addrs` are the starting keys plus the distinct keys those samples yield |
| `Observation.AccumulateAllTrue` | ebits.py:20 | every value in `addrs` stays True across samples |
| `Observation.ReportsAt` | ebits.py:44-46 | one number is printed per sample, the i-th being `len(addrs)` after the first i+1 samples |
| `Observation.ReportsCountDistinct` | ebits.py:44-46 | the i-th printed number is the count of distinct keys among the first i+1 samples (plus the starting keys) |
| `Observation.ReportsStep` | ebits.py:44-46 | consecutive printed numbers differ by 0 or 1 |
| `Observation.ReportsFirst` | ebits.py:44-46 | the first printed number is the starting length or one more |
| `Observation.ReportsMonotone` | ebits.py:44-46 | the printed count never decreases |
| `Observation.FinalCountDistinct` | ebits.py:44-46 | from an empty `addrs`, the final count equals the number of distinct extracted keys |
| `Observation.CountOrderIndependent` | ebits.py:44-46 | reordering the samples does not change the final keys or the count |
| `Observation.Observe` | ebits.py:44-46 | the loop leaves `addrs` as the accumulated dictionary and prints the sequence of counts |
| `Observation.Measure` | ebits.py:34-46 | `main` exits with -1 when no flag is set, and otherwise prints the counts of the selected key starting from an empty `addrs` |
| `Observation.WhereSample` | ebits.py:16-20 | for every `-`-free `addr`, an output line `addr-where` yields `addr` in executable mode |
| `Observation.RepeatedKeyCounts` | ebits.py:44-46 | samples yielding keys k1, k2, k1 (k1 != k2) print 1, 2, 2 |
| `Observation.ScenarioCounts` | ebits.py:44-46 | samples `1000-where`, `2000-where`, `1000-where` print 1, 2, 2 |

## Left out

- Launching `./where` with `subprocess.Popen` and reading its output with `communicate` (ebits.py:12-14): process I/O. Each sample's output is given as a sequence of lines.
- `str.splitlines` (ebits.py:16): which characters end a line, and Python 2 byte strings versus text. The lines are taken as given, and characters stand for bytes.
- Failures of the launch or the read (a missing or non-executable `./where`). The source does not handle them; the Python exception simply ends the program.
- `argparse` parsing and help text, `parser.print_help()`, `print` and `sys.exit` (ebits.py:26-32, 41-42, 46): library and I/O calls. The flags reach the model as three booleans. The printed numbers are returned as a sequence. The exit is returned as the status -1 passed to `sys.exit` (the operating system reports it as 255).
- Observation.Observe: the `while True` loop never ends and is stopped from outside (ebits.py:44). The model runs it over a finite sequence of samples. Monotonicity is stated for every pair of reports.
