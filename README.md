# dd-agent system checks, modelled in Dafny

This project models the parsing core of the system checks of the Datadog
agent (`checks/system.py`).

- **Disk**: the `df` parser `Disk._parse_df` and `Disk.check`.
- **IO**: the `iostat -x` parser of `IO.check`.
- **Load**: the load-average extraction of `Load.check`.
- **Memory**: the `/proc/meminfo` branch of `Memory.check`.
- **Network**: the stateful `Network` check, with its Linux (`/proc/net/dev`) and FreeBSD (`netstat -nbid`) parsers and its store of per-interface baselines.
- **Cpu**: `Cpu.check`, with `get_value` and `format_results`.

Each check takes the text its tool would have printed, as a value. The platform is a `Platform` value and the clock an integer argument. A call ends in one of three ways, captured by `Outcome`:

- it returns a value (`Ok`);
- it returns `False` (`ReturnsFalse`);
- an exception escapes it (`Raises`).

Rows that Python edits in place become sequences of `Field` values, each a string or an integer.

Each loop of the source is written twice.

- A Dafny `method` runs the loop. It is proved equal to a fold function over the remaining input.
- The properties are lemmas about that fold.

`Network` is a class. Its interface baselines live in a `map` field, next to the two timestamps. Python 2 dictionaries iterate in no fixed order, so `Network.Tracker.Update` returns, as a ghost value, an ordering of the faces that explains the new store and the result. The lemmas about `UpdateRun` hold for every ordering.

Files:

- `common.dfy`: the shared types `Option`, `Platform`, `Exc`, `Outcome`.
- `text.dfy`: the Python 2 string operations and conversions the parsers use.
- `seqs.dfy`: list comprehensions, `list.index`, `dict(zip(...))`.
- `disk.dfy`, `io.dfy`, `load.dfy`, `memory.dfy`, `network.dfy`, `cpu.dfy`: one module per check.

## Behaviour

These are the places where `checks/system.py` handles bad input less gently than a reader might expect. The model does what the code does.

- A `df` row whose conversion raises `IndexError` is caught at checks/system.py:94 and still appended, partly converted. A `ValueError` from `int()` is not caught there; `Disk.check` catches it at checks/system.py:117 and returns `False`.
- A network line with more than one colon makes the unpacking at checks/system.py:361 raise `ValueError`, which escapes the call.
- A counter that is lower than its baseline is not treated as a reset. The rate is the negative difference (checks/system.py:381-382 and 436-437).
- `Load.check` on a platform that is neither Linux, FreeBSD nor darwin raises `UnboundLocalError` at checks/system.py:203, because `uptime` is never bound.
- On Linux, `Cpu.check` returns `False` when the legend line or the `Average` line is missing, and also when either occurs more than once (checks/system.py:524). A data line too short to hold a looked-up column raises `IndexError` (checks/system.py:496).
- On FreeBSD, the network check does not divide by the interval (checks/system.py:436-437).

## Model

| member | source | states |
|---|---|---|
| Text.Words | checks/system.py:42 | `str.split()`: every token is non-empty and free of whitespace (`Text.RunsJoin`, `Text.RunsApart` and `Text.WordsSplitRuns` say that nothing is lost and the tokens are maximal) |
| Text.WordsOfUnwords | checks/system.py:42 | splitting words joined by spaces gives the same words back |
| Text.RunGapsOutside | checks/system.py:42 | the stretches before, between and after the runs of a character class hold no character of the class |
| Text.RunsJoin | checks/system.py:42 | the runs (the tokens of `str.split()`, or the matches of `re.findall` for a class `[...]+`, checks/system.py:138) interleaved with the stretches around them give back the input, so nothing is lost |
| Text.RunsApart | checks/system.py:42 | every stretch between two runs is non-empty, so each run is maximal |
| Text.WordsSplitRuns | checks/system.py:42 | `str.split()` is `re.split(r'\s+')` (checks/system.py:412) with its empty pieces removed |
| Text.SplitRuns | checks/system.py:412 | `re.split(r'\s+')`: at least one piece, no piece holds whitespace |
| Text.Gaps | checks/system.py:412 | the whitespace runs `re.split(r'\s+')` cuts at: each is a non-empty run of whitespace |
| Text.SplitRunsJoin | checks/system.py:412 | one run fewer than pieces, and the pieces interleaved with the runs give back the input, so nothing is lost |
| Text.SplitRunsInterior | checks/system.py:412 | every piece strictly between the first and the last is non-empty, so the runs are maximal |
| Text.Strip | checks/system.py:375 | `strip()`: the result has no whitespace at either end and is no longer than the input; a string without whitespace is its own result |
| Text.StripTrims | checks/system.py:375 | `strip()` removes only whitespace: the input is a whitespace run, the result, and a whitespace run |
| Text.IndexOf | checks/system.py:360 | `find`: the separator occurs at the position found and at no earlier position; `None` (-1) when it occurs nowhere |
| Text.SplitOn | checks/system.py:136 | `split(sep)`: the join of the pieces with the separator is the input; exactly one piece iff the separator does not occur |
| Text.SplitOnPieces | checks/system.py:136 | no piece of `split(sep)` holds the separator |
| Text.FirstDigitRun | checks/system.py:237 | `re.search('[0-9]+')`: a run of digits, absent iff the text has no digit |
| Text.FirstDigitRunAt | checks/system.py:237 | the run found sits in the text after a stretch without digits, and is followed by a non-digit or the end: the leftmost maximal run |
| Text.Decimals | checks/system.py:203 | `re.findall` of digits, separator, digits: every match is such a token |
| Text.DecimalsCons | checks/system.py:203 | a decimal token followed by a space is the first match, and the scan resumes after it |
| Text.DecimalsLocated | checks/system.py:203 | each match sits in the text at a position where digits, separator, digits start, and ends where the second run of digits ends |
| Text.DecimalsApart | checks/system.py:203 | the matches do not overlap and come from left to right |
| Text.DecimalsCovered | checks/system.py:203 | every position at which digits, separator, digits start lies inside some match: none is missed |
| Text.ParseShowInt | checks/system.py:439 | `long(str(n)) == n` for every integer |
| Text.ParseInt | checks/system.py:89 | `int()`: a digit string gives its value; a string that starts with neither a digit nor a sign fails |
| Text.ParseIntAccepts | checks/system.py:89 | `int()` succeeds iff the text is digits with an optional `+`/`-` sign (`IsIntLiteral`); a `+` keeps the digits' value and a `-` negates it |
| Text.ParseReal | checks/system.py:496 | `float()` agrees with `int()` on every integer literal |
| Text.ParseRealAccepts | checks/system.py:496 | `float()` succeeds iff the text is an optionally signed plain decimal literal (`IsFloatLiteral`: digits, or digits around one point with at least one digit) |
| Text.DigitsValueAppend | checks/system.py:496 | the value of two digit strings written one after the other is the first value shifted by the second's length, plus the second value |
| Text.ParseRealDecimal | checks/system.py:496 | `float()` of digits, a point and digits (not both empty) is the value of all the digits over ten to the number of fraction digits |
| Text.ParseRealSignedDecimal | checks/system.py:496 | a leading `-` negates that value, and a leading `+` keeps it |
| Seqs.Filter | checks/system.py:522 | a comprehension with a condition keeps exactly the elements that satisfy it |
| Seqs.FilterCount | checks/system.py:522 | every element occurs in the filtered list as often as in the input if it satisfies the condition, and never otherwise |
| Seqs.FilterAppend | checks/system.py:522 | filtering a concatenation is the concatenation of the filtered parts |
| Seqs.FilterCons | checks/system.py:522 | filtering puts the head first iff it satisfies the condition, then the filtered tail |
| Seqs.UpsertsContents | checks/system.py:240 | a loop that sets one dictionary entry per storing line: a key is present iff it was there before or some line stores it; its value is that of the last such line, and a key no line stores keeps its old value |
| Seqs.IndexOfElem | checks/system.py:496 | `list.index`: the first position that holds the element |
| Seqs.ZipDict | checks/system.py:362 | `dict(zip(k, v))`: its keys are the keys paired with a value; each maps to the value of its last pairing |
| Disk.ConvertSpec | checks/system.py:70-93 | darwin inode mode: total = col5 + col6, used = col5, available = col6; otherwise cols 1-3 become their integers; `ValueError` iff a column read is not an integer; a short row is kept with the columns converted so far; col 0 and cols 4 onwards are untouched |
| Disk.ConvertRow | checks/system.py:70-93 | the in-place conversion of `parts` computes `Convert` |
| Disk.LineStep | checks/system.py:42-93 | the loop body computes one step of the parser's fold (skip, emit or fail) |
| Disk.ParseDf | checks/system.py:13-98 | the parser's loop, with `previous` and `usageData`, computes `ParseDfSpec` |
| Disk.Check | checks/system.py:100-119 | never raises; returns both tables iff both `df` runs succeed and both parses succeed, and `False` otherwise |
| Disk.DfRun | checks/system.py:41-97 | the rows, or `ValueError`: no other exception escapes the loop |
| Disk.DataLines | checks/system.py:44-59 | every line kept has two tokens, a first token other than `none`, and a second token starting with a digit |
| Disk.DataLinesFilter | checks/system.py:44-59 | the data lines are exactly the tokenised lines kept by the data-line condition, in order |
| Disk.DfRunRows | checks/system.py:36-97 | one row per data line, in input order, built from that line; no row for an empty line, a single-token line, a `none` line, or a line whose second token does not start with a digit |
| Disk.OverflowNameCollated | checks/system.py:50-67 | a name alone on its line plus a digit-led data line give one row named by that name (or by the mount point with `use_mount`), and no name is left pending |
| Disk.NoCollation | checks/system.py:61-67 | without a pending name, or with a data line whose first token does not start with a digit, field 0 is the row's own first token (or its last with `use_mount`), and the pending name stays |
| Disk.HeaderDropped | checks/system.py:36 | the first line never reaches the loop |
| Disk.HeaderOnly | checks/system.py:36-41 | a text holding only the header gives no rows |
| IO.DeviceName | checks/system.py:148-152 | `re.match('^[a-zA-Z0-9/]+')`: the longest prefix of device characters, absent iff the row does not start with one |
| IO.IoRun | checks/system.py:141-165 | the row loop never raises |
| IO.RowEntry | checks/system.py:161-165 | the entry is `dict(zip(names, values))`, and is absent (`IndexError`) iff there are fewer values than names |
| IO.Check | checks/system.py:126-173 | `False` off Linux or when `iostat` fails; otherwise the parse of the second report |
| IO.IoRunWellFormed | checks/system.py:154-165 | every stored entry has exactly the column names as keys, and every value is a decimal (the shape; `IO.IoRunContents` says which row each entry comes from) |
| IO.IoRunContents | checks/system.py:148-165 | a device is in the table iff it was there before or some row with values is filed under it (the row's own name, else the last name above it); its entry is `dict(zip(names, values))` of the last such row, and an entry no row is filed under is left as it was |
| IO.IoRunFails | checks/system.py:154-169 | `False` iff some non-empty row has values, but fewer than there are column names |
| IO.DeviceCarried | checks/system.py:148-159 | a device name on a line without values carries over to the next line's values |
| Load.Normalise | checks/system.py:203 | the comma becomes a point: no `,` remains and the length is kept |
| Load.NormaliseKeepsDecimal | checks/system.py:203 | a decimal token with either separator stays a decimal token, with a point |
| Load.LoadAverages | checks/system.py:202-205 | keys `1`/`5`/`15` iff there are at least three decimal tokens, `IndexError` otherwise; `1`, `5` and `15` hold the first, second and third decimal token with its comma turned into a point, so no value holds a comma |
| Load.Check | checks/system.py:179-205 | `UnboundLocalError` on other platforms; with a `/proc` file (Linux, or FreeBSD with a location configured), `False` when it cannot be read, `IndexError` when it is empty, otherwise the load averages of its first line; on darwin or FreeBSD without one, `False` when `uptime` cannot be run, otherwise the load averages of its output |
| Load.NormaliseDecimal | checks/system.py:203 | a token with either separator normalises to digits, point, digits |
| Load.FirstThreeInOrder | checks/system.py:203-204 | the first three decimal tokens map, in order, to `1`, `5` and `15`, whatever follows them |
| Load.ExactlyThreeInOrder | checks/system.py:203-204 | the same for a text that ends with the third token (`0,50 1,20 2,00` gives 0.50, 1.20, 2.00) |
| Memory.BuildMeminfo | checks/system.py:229-243 | the loop, with its `break`, computes `MeminfoRun` |
| Memory.MemUsage | checks/system.py:245-280 | phys set iff `MemTotal` and `MemFree` are present; cached also needs `Cached`; swap set iff `SwapTotal` and `SwapFree`; free = kB div 1024; used = (total - free) div 1024 |
| Memory.CheckMeminfo | checks/system.py:213-282 | `False` iff the file could not be read; otherwise the usage of the table built from its lines |
| Memory.StopsAtFirstColonless | checks/system.py:231-243 | nothing after the first line without a colon reaches the table |
| Memory.StopsAtColonless | checks/system.py:232-243 | a line without a colon ends the loop |
| Memory.MeminfoKeys | checks/system.py:231-243 | over lines that all have colons, a key is in the table iff some line stores a digit run under it |
| Memory.MeminfoUpserts | checks/system.py:231-243 | over lines that all have colons, the loop sets, line by line, the key before the first colon to the first digit run after it |
| Memory.MeminfoValues | checks/system.py:231-243 | a key's value is the digit run of the last line that stores it; a key no line stores keeps its old value |
| Memory.SwapIndependent | checks/system.py:266-280 | the swap fields depend only on `SwapTotal` and `SwapFree` |
| Memory.PhysIndependent | checks/system.py:248-263 | the phys fields depend only on `MemTotal`, `MemFree` and `Cached` |
| Memory.UsedSubtractsInKb | checks/system.py:249-255 | subtraction happens in kB before the division: 2048 kB total and 1 kB free give 1 MB used, 0 MB free |
| Cpu.GetValue | checks/system.py:493-499 | 0 when the header is absent; otherwise the number in the column of its first occurrence, `IndexError` iff the data line is too short, `ValueError` iff the token is not a number |
| Cpu.ReadColumns | checks/system.py:531-544 | reading columns one after another with `get_value`: all values, in order, iff no read raises; otherwise the exception of the first read that raises |
| Cpu.LinuxStats | checks/system.py:531-550 | the record is produced iff none of the ten reads (`%usr`, `%user`, `%nice`, `%iowait`, `%idle`, `%sys`, `%irq`, `%soft`, `%steal`, `%guest`, in that order) raises, and the first one that raises gives the exception |
| Cpu.CpuLinux | checks/system.py:521-552 | `False` iff the output does not have exactly one legend line and exactly one `Average` line; otherwise `LinuxStats` of the legend's tokens without `AM`/`PM` and the `Average` line's tokens: the record iff none of the ten reads raises, else the first read's exception |
| Cpu.LinuxSums | checks/system.py:531-550 | user = `%usr` + `%user` + `%nice`; system = `%sys` + `%irq` + `%soft`; wait, idle and stolen are `%iowait`, `%idle` and `%steal`, each absent column counting 0 |
| Cpu.CpuDarwin | checks/system.py:554-571 | wait and stolen are 0; `False` iff the count of non-empty lines mentioning `us` is not exactly one; otherwise the first of `us`, `sy`, `id` (read against the last non-empty line) that raises is the exception, and when none raises, user, system and idle are those three values |
| Cpu.Check | checks/system.py:486-574 | the Linux result is `CpuLinux` of the `mpstat` output, the darwin result `CpuDarwin` of the `iostat` output; `False` on other platforms; wait and stolen are 0 on darwin |
| Cpu.UserColumnsAbsent | checks/system.py:493-550 | with neither `%usr` nor `%user` among the headers and the other reads succeeding, the record is still produced and user time is `%nice` alone |
| Network.Long | checks/system.py:381 | `long()` agrees with `int()` and raises only `ValueError` |
| Network.LongAccepts | checks/system.py:381 | `long()` also accepts an integer literal followed by `L` or `l`, reading the literal, and raises iff the text is neither an integer literal nor such a suffixed one |
| Network.Prefixed | checks/system.py:353-354 | each column name carries the prefix |
| Network.LinuxColumns | checks/system.py:351-356 | the columns iff the line has exactly three `|` pieces, `ValueError` otherwise: the receive names prefixed `recv_`, then the transmit names prefixed `trans_` |
| Network.LinuxFacesRun | checks/system.py:358-363 | the face loop succeeds, or raises `ValueError` |
| Network.LinuxFacesOk | checks/system.py:359-363 | the loop succeeds iff no line has a colon and splits into other than two pieces |
| Network.LinuxFacesUpserts | checks/system.py:359-363 | on success, each line with a colon sets its face to `dict(zip(cols, data.split()))`, in order |
| Network.LinuxFacesContents | checks/system.py:359-363 | on success, a face is present iff it was before or some line feeds it; its data are those of the last such line; a face no line feeds is unchanged |
| Network.ParseLinuxSpec | checks/system.py:351-363 | fewer than two lines raise `IndexError` |
| Network.ParseLinuxFaces | checks/system.py:351-363 | the parsing loop computes `ParseLinuxSpec` |
| Network.FreeBSDFace | checks/system.py:412-422 | rows of 12 or 13 fields only; the counters counted from the row's end; `errors` reads back as the sum of the two error counts; such a row raises (only `ValueError`) iff `long()` rejects one of its two error counts |
| Network.FreeBSDFacesRun | checks/system.py:411-424 | the row loop succeeds, or raises `ValueError` |
| Network.FreeBSDFacesOk | checks/system.py:411-424 | the loop succeeds iff no row makes `FreeBSDFace` raise |
| Network.FreeBSDFacesUpserts | checks/system.py:411-424 | on success, each row of 12 or 13 fields sets its face, the row's first field, to the row's counters, in order |
| Network.FreeBSDFacesContents | checks/system.py:411-424 | on success, a face is present iff it was before or some row feeds it; its counters are those of the last such row; a face no row feeds is unchanged |
| Network.ParseFreeBSDFaces | checks/system.py:407-424 | the parsing loop computes `ParseFreeBSDSpec` |
| Network.Counter | checks/system.py:381 | a missing column raises `KeyError`; otherwise `long()` of its token |
| Network.Stored | checks/system.py:381 | a baseline without the counter raises `KeyError`; otherwise `long()` of it |
| Network.PerSecond | checks/system.py:381-382 | the rate times the interval is the difference |
| Network.DeltaText | checks/system.py:439-440 | the text reads back as the difference |
| Network.KnownSpec | checks/system.py:379-385 | it succeeds iff all four counters are readable, and otherwise the first unreadable one (current then stored receive counter, then the transmit pair) gives the exception; when it succeeds, on Linux the rates times the interval are the differences; on FreeBSD the texts read back as the undivided differences |
| Network.FaceStepSpec | checks/system.py:374-394 | only the face's own key changes; the key gets a baseline; a step with no earlier failure raises nothing iff a known face's `Known` succeeds, or a new face has both `recv_bytes` and `trans_bytes`; otherwise it records `Known`'s exception, or `KeyError` for the missing column; with no failure the baseline is the current counters, and the face is reported iff it had a baseline |
| Network.UpdateRunFailed | checks/system.py:374-394 | after the first exception, later faces change nothing |
| Network.UpdateRunUntouched | checks/system.py:374-394 | a key no face strips to is not reported, and its baseline is unchanged |
| Network.UpdateRunKeys | checks/system.py:379-394 | no baseline is removed; every reported key has a baseline |
| Network.UpdateRunFace | checks/system.py:379-394 | without exceptions, a face whose stripped name no other face shares is settled: its baseline becomes its current counters; it is reported iff it had a baseline before, and then with the differences to that baseline |
| Network.Eth0Example | checks/system.py:365-394 | counters 100/200 give no rate on the first call; 300/400 two seconds later give 100 bytes/s each way |
| Network.Tracker.constructor | checks/system.py:333-337 | an empty store; both timestamps are the start time |
| Network.Tracker.Visit | checks/system.py:375-394 | the loop body for one face computes `FaceStep`, with its partial writes to the store |
| Network.Tracker.Update | checks/system.py:373-394 | some ordering of the faces explains the new store and the result; the timestamps are untouched |
| Network.Tracker.CheckLinux | checks/system.py:339-396 | `current_ts` becomes `now` once the file is read; a zero interval returns `False` and leaves `last_ts` and every baseline as they were; otherwise `last_ts` becomes `now` and the update runs with `now - last_ts` |
| Network.Tracker.CheckFreeBSD | checks/system.py:398-450 | no timestamp changes; a parse error leaves the store; otherwise the update runs with no division |
| Network.Tracker.Check | checks/system.py:339-452 | on Linux, as `CheckLinux`: an unreadable file returns `False` and changes nothing, a parse error escapes and leaves `last_ts` and the store, a zero interval returns `False` and leaves them too, and otherwise `last_ts` becomes `now` and the update with `now - last_ts` explains the store and result; on FreeBSD, as `CheckFreeBSD`, with no timestamp change and no division; other platforms return `False` and change nothing |

## Left out

- Running tools and reading files (`subprocess.Popen`, `open`, `readlines`): each check takes the captured text as an argument. `None` stands for the `IOError`, or the exception of a tool that could not be run, where the source catches it (`Disk.check`, `IO.check`, `Load.check`, `Memory.check`, `Network.check` on Linux).
- Cpu.Check: a `Popen` of `mpstat` or `iostat` that raises is not caught in the source, and the model does not represent it; both outputs are plain strings.
- `time.time()`: `now` is an integer argument, so intervals are whole seconds.
- `sys.platform` string tests: the platform is a `Platform` value.
- Logging calls: they have no effect on results.
- Load.Check: `Load.__init__` (checks/system.py:176-177) does not call `Check.__init__`. Whether `self.logger` exists at lines 189 and 199 then depends on the `Check` base class, which is not part of this model. The model assumes it exists, so a failed read returns `False` rather than raising `AttributeError`.
- `Processes.check`: a reformatting of `ps` output that depends on the host name and the agent configuration.
- The FreeBSD-native and darwin branches of `Memory.check` (checks/system.py:284-328): they read fixed positions of tool reports, and line 311 is mis-indented. `Memory.CheckMeminfo` covers only the branch taken on Linux, or on FreeBSD when a Linux-style `/proc` location is configured (checks/system.py:215).
- Network.KnownSpec: the Linux rate is an exact real quotient, and the `str()` of a Python float is not modelled.
- Cpu.GetValue: `float()` accepts only plain decimal notation; exponents, `inf` and `nan` are not modelled.
- Text.ParseInt: `int()`/`long()` are modelled on tokens without surrounding whitespace, in base 10; the parsers only pass such tokens.
- Network.Tracker: the source keeps `last_ts` and `current_ts` in the same dictionary as the interface baselines. An interface named `last_ts` or `current_ts` would collide with them. The model keeps the two apart.
- Network.Tracker.Update: Python 2 dictionary order is unspecified. The contract states that some ordering of the faces explains the result. It does not say which ordering.
- Network.FreeBSDFace: the `errors` count is kept as its decimal text, not as a `long`. It is never read again.
- Counter wrap-around or reset: the source does not handle it, and the model reports a negative difference as the source does.
