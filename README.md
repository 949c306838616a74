# WhoAteMyRAM (wamr.py) in Dafny

A Dafny model of the core of `wamr.py`, the WhoAteMyRAM memory analyser. The
model covers:

- `MemoryAnalyzer.get_system_memory`. It parses macOS `vm_stat` output, with
  the page size taken from its header and the capacity from
  `sysctl -n hw.memsize`. It parses the Linux `/proc/meminfo` table. It falls
  back from one source to the next, ending in the demo snapshot or the empty
  dict.
- `MemoryAnalyzer.get_processes`. It parses the macOS
  `ps -ax -m -o pid,user,rss,command` table: rows under 1 MB are dropped, the
  rest are sorted by resident memory and cut to `top_n`. It parses the Linux
  `ps aux --sort=-rss` table in order. It falls back to the demo process list.
- The prompt that `analyze_with_llm` builds, and how it accepts the
  classifier's reply.
- `format_bytes`, the status band of the overview, and `print_analysis`.
  `print_analysis` is rendered as the list of blocks it prints.

The analyser's state is the class `Analyzer.MemoryAnalyzer`. Its fields are
`processes` and the three memory figures, and its methods assign them as the
Python methods do. Parsing is done by methods with loops. Each method is proved
equal to a recursive function, and the properties are proved about those
functions.

The host is passed in as values, because the model cannot read it:

- `platform.system()` is a string.
- Each `subprocess.run(..., check=True)` is a `Host.CommandResult`: the
  captured stdout, or a failure.
- Reading `/proc/meminfo` is a `Host.FileResult`: the text, a missing file, or
  any other read error.
- The Ollama HTTP call is a function parameter `ask` from the prompt to a
  `Reply`. The reply is the status code and the already-decoded JSON body.

Sizes are exact `real` numbers. Python's floats are not modelled.

Python's string built-ins are written out in module `PyText`. They cover
`strip`, `split()` with and without a maximum split count, `split(':')`, `in`,
`lower`, `int()`, `float()`, slicing and `Path(...).name`.

## Model

| member | source | states |
|---|---|---|
| PyText.StripTrims | wamr.py:50-51 | `str.strip()` returns a slice of its input with only whitespace before and after it, and the slice neither starts nor ends with whitespace, so it removes exactly the leading and trailing whitespace |
| PyText.SplitWsPieces | wamr.py:153 | every piece of `line.split(None, n)` (`SplitWs`) starts with a non-blank, and every piece but the last is one word |
| PyText.SplitWsPadded | wamr.py:198 | a row of single-word fields and a last field, each after a whitespace run of any width (the first run may be empty), splits with one split per word back into exactly those words and the whole last field |
| PyText.Words | wamr.py:105 | `s.split()` yields non-empty words without whitespace; when `s` starts with a non-blank, the first word is the leading run of non-blanks |
| PyText.WordsEmpty | wamr.py:105 | `s.split()` is empty exactly when `s` is all whitespace, which is when `split()[0]` raises and the meminfo read aborts |
| PyText.JoinSplitOn | wamr.py:43 | joining the pieces of `s.split(sep)` (`SplitOn`) with `sep` gives `s` back |
| PyText.SplitOnCount | wamr.py:101 | `s.split(sep)` has one piece more than `s` has separators, so a meminfo line with two colons does not unpack into a key and a value |
| PyText.SplitOnPair | wamr.py:101 | a key and a value without the separator, joined by one separator, split back into exactly those two |
| PyText.IsInfix | wamr.py:58 | the substring test `pat in s` holds exactly when `pat` occurs at some position of `s` |
| PyText.ParseIntOfDecimal | wamr.py:105 | `int(str(n)) == n` for every integer (`ParseInt`) |
| PyText.ParseFloatOfNatural | wamr.py:158 | `float(str(n)) == n` for every natural number (`ParseFloat`) |
| PyText.NatToDecimalValue | wamr.py:54-55 | the digits of `str(n)` denote `n` |
| PyText.SliceTo | wamr.py:152 | `s[:n]` is a prefix of `s` of length `min(n, len(s))`, or `len(s)+n` (at least 0) for a negative `n` |
| PyText.Basename | wamr.py:167 | the name is the suffix of the path after its last `/` and contains no `/` |
| PyText.TakeWordMaximal | wamr.py:167 | the first word is a prefix of the command that ends at whitespace or at the end |
| Host.OutputLines | wamr.py:43 | `stdout.strip().split('\n')` always has a first line, and an empty output is one empty line |
| Memory.UsedPercent | wamr.py:89 | the percentage is 0 when the total is not positive |
| Memory.UsedPercentShare | wamr.py:89 | with a positive total the percentage times the total is 100 times used memory, and it lies in [0, 100] when used does not exceed total |
| Memory.AssignLookup | wamr.py:48-56 | a dict filled line by line (`Assign`) holds a key exactly when some line assigned it, and then it holds the value of the last such line |
| Memory.ParseMeminfoLine | wamr.py:100-106 | a line without a colon is skipped; a line with more than one colon aborts the read; a kept key has one colon and is the stripped text before it |
| Memory.MeminfoLineRoundTrip | wamr.py:100-106 | a kernel-style line `key: <padding><n> kB` reads back as the stripped key with value `n` |
| Memory.MeminfoLineParts | wamr.py:101-106 | a one-colon line aborts when its value has no first word or that word is not an integer, and otherwise yields the stripped key and that integer |
| Memory.MeminfoTableSnoc | wamr.py:100-106 | one more line leaves the table (`MeminfoTable`) alone, aborts the read, or assigns its key the value in MB |
| Memory.MeminfoTableFails | wamr.py:100-106 | the meminfo loop raises exactly when some line is malformed |
| Memory.MeminfoTableAssigns | wamr.py:104-106 | when the loop completes, the table is the last value (kB / 1024) assigned to each key |
| Memory.FillMeminfo | wamr.py:99-106 | the loop's table equals the table function, and is absent exactly when some line is malformed |
| Memory.ReadMeminfo | wamr.py:97-106 | reading the lines gives the table function of them, and fails exactly when some line is malformed |
| Memory.MeminfoLinesFail | wamr.py:100-106 | the meminfo table is absent exactly when some input line parses as malformed |
| Memory.MeminfoStats | wamr.py:108-122 | total is MemTotal and free is MemAvailable, each 0 when missing; used plus free is total; without MemAvailable all memory counts as used; the percentage is guarded |
| Memory.MeminfoIgnoresOtherKeys | wamr.py:108-115 | no key other than MemTotal and MemAvailable affects the figures, so MemFree, Buffers and Cached are read but unused |
| Memory.MeminfoMemory | wamr.py:95-137 | the demo snapshot exactly when the file is missing; no figures exactly when the file is unreadable or some line is malformed; otherwise the `MeminfoStats` figures of the table the lines build |
| Memory.ReadLinuxMemory | wamr.py:95-137 | the Linux branch step by step equals `MeminfoMemory` |
| Memory.ParseVmStatLine | wamr.py:48-56 | a kept vm_stat line has a colon, and its count is the number formed by the digits after its first colon |
| Memory.VmStatLineRoundTrip | wamr.py:48-56 | a line `key: <padding><n>.` as vm_stat prints it reads back as the stripped key and `n` |
| Memory.VmStatLineParts | wamr.py:49-56 | a line is dropped exactly when its value has no digit, and otherwise keeps the stripped key with the value of all its digits |
| Memory.DigitsOfTrimmed | wamr.py:52-54 | stripping the value and its trailing dots does not change which digits are collected |
| Memory.DigitsAppend | wamr.py:54 | collecting digits (`Digits`) distributes over concatenation |
| PyText.DigitsEmpty | wamr.py:54-55 | no digits are collected exactly when the text has no digit character, so such a vm_stat line is dropped |
| Memory.ReadVmStat | wamr.py:46-56 | the loop builds the dict of the last count seen per key |
| Memory.PageSize | wamr.py:58-60 | 4096 when the lower-cased first line does not mention "page size of"; a failure exactly when it mentions it and has no digit; otherwise the value of all its digits |
| Memory.PageSizeOfHeader | wamr.py:58-60 | the header `Mach Virtual Memory Statistics: (page size of <n> bytes)` reads back as page size `n` |
| Memory.HeaderMentionsPageSize | wamr.py:58 | a header containing "(page size of " passes the lower-cased substring test |
| Memory.HeaderDigits | wamr.py:59 | the digits collected from such a header are exactly the page-size digits |
| Memory.PagesToMbAdd | wamr.py:68-79 | converting page counts to MB distributes over adding them, so summing in MB equals summing the pages |
| Memory.PagesToMbScale | wamr.py:68-71 | multiplying the page size by a factor multiplies the MB figure by it |
| Memory.VmStatStats | wamr.py:62-90 | used is (active + wired) pages, free is (free + speculative + inactive) pages, both times the page size over 1048576; total is the capacity over 1048576 |
| Memory.PageSizeScaling | wamr.py:68-79 | scaling the page size scales used and free, leaves total unchanged, and scales the percentage when the capacity is positive |
| Memory.ScaledPercent | wamr.py:89 | scaling used memory scales the percentage by the same factor |
| Memory.InactiveCountsAsFree | wamr.py:62-83 | inactive pages count only as free: changing them leaves used unchanged and moves free by exactly that many pages |
| Memory.DarwinMemory | wamr.py:39-93 | figures exactly when vm_stat completed, its page size reads, sysctl completed and the capacity parses; they are then the `VmStatStats` of the vm_stat table, that page size and that capacity |
| Memory.ReadDarwinMemory | wamr.py:39-93 | the Darwin branch step by step equals `DarwinMemory` |
| Memory.StripIdempotent | wamr.py:76 | stripping twice is stripping once, so `int(stdout.strip())` reads the same as `int(stdout)` |
| Memory.SystemMemory | wamr.py:35-137 | on Darwin, when that branch succeeds, the `DarwinMemory` figures; otherwise exactly `MeminfoMemory`: the demo snapshot exactly when /proc/meminfo is missing, no figures exactly when it is unreadable or malformed |
| Processes.DisplayCommand | wamr.py:174 | the stored command is the first `min(100, len)` characters of the command |
| Processes.ProcessName | wamr.py:167 | for a command starting with a non-blank, the name is the last path component of its first word |
| Processes.TakeWordOfPrefix | wamr.py:174 | cutting a command does not change its first word when that word ends before the cut |
| Processes.RecordWellNamed | wamr.py:167-175 | a record built from a command that starts with a non-blank follows the name rule, both for the name and for the command cut to 100 characters |
| Processes.MacRowKept | wamr.py:152-177 | a macOS row (`MacRow`) is kept exactly when it has four fields, pid and rss parse, and rss is at least 1024 kB (1.0 MB kept); the record carries that pid, user and rss/1024, the command field cut to 100 characters, and the basename of that field's first word as name |
| Processes.MacRowRoundTrip | wamr.py:152-175 | a row `pid user rss command` with any column padding reads back as that process, and is dropped exactly when rss is under 1024 kB |
| Processes.MacCandidatesSnoc | wamr.py:152-175 | one more row appends its record to the collected list (`MacCandidates`) when it is kept, and nothing otherwise |
| Processes.MacCandidatesShape | wamr.py:152-175 | the collected records are no more than the rows, each at least 1 MB and well named |
| Processes.InsertByRss | wamr.py:180 | inserting adds exactly that one record |
| Processes.InsertByRssSorted | wamr.py:180 | inserting into a list sorted largest first keeps it sorted |
| Processes.SortedCons | wamr.py:180 | a record no smaller than any in a sorted list can go in front of it |
| Processes.SortByRss | wamr.py:180 | sorting is a permutation |
| Processes.SortByRssSorted | wamr.py:180 | the sorted list is ordered by resident memory, largest first |
| Processes.InsertByRssStable | wamr.py:180 | inserting puts a record ahead of every other record with the same size |
| Processes.SortByRssStable | wamr.py:180 | the sort is stable: records of equal size keep their input order, as `list.sort(reverse=True)` keeps them |
| Processes.MacProcessesTop | wamr.py:150-182 | the macOS result (`MacProcesses`) is sorted, has at most `top_n` entries drawn from the collected rows, no left-out row is larger than a kept one, and every entry is at least 1 MB and well named |
| Processes.SortedPrefixTop | wamr.py:180-181 | the first `k` of a sorted list are sorted, drawn from it, and no smaller than any record left out |
| Processes.PrefixDominates | wamr.py:181 | every record in the cut-off prefix is at least as large as every record after it |
| Processes.SplitMultiset | wamr.py:181 | what the cut drops is exactly the rest of the list |
| Processes.ReadMacProcesses | wamr.py:149-182 | the macOS loop, sort and cut equal `MacProcesses` |
| Processes.LinuxRowShape | wamr.py:198-216 | a Linux row (`ParseLinuxRow`) is skipped exactly when it has fewer than eleven fields and raises exactly when pid or rss does not parse; a record carries that pid, user and rss/1024, the command field cut to 100 characters, and the basename of that field's first word as name; there is no size filter |
| Processes.LinuxRowRoundTrip | wamr.py:197-216 | a row of ten columns plus a command, with any column padding and the user first, reads back as the process with the pid of column 2, the rss of column 6 and the user of column 1 |
| Processes.LinuxRowOfFields | wamr.py:200-216 | eleven fields whose pid and rss parse give the record built from them |
| Processes.LinuxListAppend | wamr.py:197-216 | the Linux list (`LinuxList`) of two runs of rows is the concatenation of their lists, so rows keep their `ps` order; it fails if either run fails |
| Processes.LinuxListFails | wamr.py:197-219 | the Linux loop raises exactly when some row has a bad pid or rss; otherwise it has no more records than rows |
| Processes.LinuxProcessesBound | wamr.py:197-218 | a successful Linux read (`LinuxProcesses`) has at most `top_n` processes, each well named |
| Processes.LinuxListNamed | wamr.py:200-216 | the name rule of every row carries over to the list |
| Processes.ReadLinuxProcesses | wamr.py:194-218 | the Linux loop equals `LinuxProcesses`, including its failure |
| Processes.MockProcesses | wamr.py:221-235 | the demo list has eight processes and is not sorted by size |
| Processes.ProcessList | wamr.py:139-235 | on Darwin with a completed `ps`: exactly `MacProcesses` (sorted, at most `top_n`, at least 1 MB, well named); otherwise exactly the Linux list when it reads (at most `top_n`, well named), else the demo list |
| Report.FormatBytes | wamr.py:329-334 | MB exactly below 1024 (1023.9 stays in MB), GB from 1024 on (1024.0 is 1.0 GB), and the GB figure times 1024 is the input |
| Report.FormatBytesInjective | wamr.py:329-334 | two different sizes never format alike, so the formatting loses no information before rounding |
| Report.StatusBand | wamr.py:346-352 | CRITICAL exactly from 80 on, WARNING exactly in [60, 80), HEALTHY exactly below 60 (79.999 is WARNING, 59.999 HEALTHY) |
| Report.StatusBandMonotone | wamr.py:346-352 | more memory in use never gives a milder status |
| Report.ShownCommand | wamr.py:368-369 | the command line is printed exactly when the command is present and non-empty |
| Report.View | wamr.py:364-369 | each present key is shown as given (the size formatted); a missing process shows "Unknown", a missing size 0.0 MB, a missing reason or action "N/A"; the command only when present and non-empty |
| Report.Render | wamr.py:354-358 | the printout always starts with the overview and the summary ("No summary available" when missing) |
| Report.RenderBlocks | wamr.py:354-395 | every printed block is the overview, the summary, or an optional block whose condition holds, and each such block is printed |
| Report.RenderOrdered | wamr.py:354-395 | the blocks come in fixed order, each kind at most once |
| Report.RenderSections | wamr.py:360-395 | each priority list is printed exactly when present and non-empty, one entry per item; the reclaimable total exactly when present and positive |
| Report.RenderPriorityLists | wamr.py:360-390 | a printed priority block comes from a present, non-empty list and shows its items |
| Report.RenderReclaimable | wamr.py:393-395 | a printed reclaimable block comes from a present, positive total and shows it formatted |
| Analyzer.ListTopConsumers | wamr.py:255-257 | the prompt lists the first `min(10, len)` processes, numbered from 1 in list order, with each one's name, pid, rss, user and command |
| Analyzer.Accept | wamr.py:302-313 | the reply becomes an analysis exactly when the status is 200 and its body decodes, and then it is that body |
| Analyzer.MemoryAnalyzer.constructor | wamr.py:29-33 | a fresh analyser has no processes and zero figures |
| Analyzer.MemoryAnalyzer.GetSystemMemory | wamr.py:35-137 | returns `SystemMemory` and keeps its figures in the fields; after the empty dict the fields are unchanged; the process list is untouched |
| Analyzer.MemoryAnalyzer.GetProcesses | wamr.py:139-235 | returns `ProcessList` and keeps it in `processes`; the memory figures are untouched |
| Analyzer.MemoryAnalyzer.AnalyzeWithLlm | wamr.py:237-326 | samples memory, then processes (top 20), leaving the fields as those two calls do; without figures there is no prompt (the KeyError); otherwise the prompt carries the figures and the first ten processes numbered from 1 with all their fields, and the outcome is the accepted reply |

## Left out

- Output to stderr and stdout (the warnings, and the text `print_analysis` writes) is not modelled. `print_analysis` is modelled as the blocks it prints.
- Numbers are formatted to one decimal (`%.1f`) and sizes are IEEE doubles in the source. The model keeps exact reals, so rounding is not modelled.
- The emoji, the header rules and the exact wording of each printed line are left out. The model keeps only what each block shows.
- The Ollama HTTP request is a parameter. The model does not capture the model name, the URL, the timeout, the `requests` import, or which exception ends the call; each ends in "no analysis".
- The reply's JSON arrives decoded into an `Analysis`. Values of the wrong JSON type (a list instead of an object, a string memory size, a null) are not modelled.
- The prompt's fixed instruction text is not modelled. `Analyzer.Prompt` keeps the figures and the numbered consumers.
- `main`, the command-line flags and the `--json` output are not part of this model; neither is `demo.py`.
- `ProcessInfo.__repr__` is not part of this model.
- `str.isdigit`, `int()` and `float()` accept ASCII digits only. The model does not cover Unicode digits, underscores between digits, or `inf`/`nan`.
- PyText.ParseInt accepts decimal strings of any length. CPython 3.11 and later (and the 3.7-3.10 security releases) raise `ValueError` for more than 4300 digits. The model does not capture the effects of that limit: a meminfo line that aborts the read, a vm_stat count, page size or capacity that makes the Darwin branch fall through, a macOS pid that skips its row, a Linux pid that gives the demo list.
- `str.lower()` is modelled on ASCII letters only.
- PyText.Basename: `Path(p).name` is the text after the last `/`. It is not normalised, so a trailing `/` gives an empty name, where `pathlib` would drop the trailing slash first.
- Reading `/proc/meminfo` is split on `\n`. Universal-newline translation of `\r` and `\r\n` is not modelled.
- The meminfo lines are classified by `Memory.MeminfoFields` before the filling loop runs. This is the same as classifying them inside the loop, because classifying a line has no effect.
- Memory.MeminfoStats: the free figure is MemAvailable, and 0 when that key is missing. The code fetches MemFree, Buffers and Cached, which suggests a fallback to free + buffers + cached, but it never uses them; the model follows the code.
- Memory.MeminfoStats, Memory.VmStatStats: a reader might expect `used_mb <= total_mb` with no negative figure. The code does not enforce this. The model proves it for meminfo only when 0 <= MemAvailable <= MemTotal, and does not claim it for vm_stat, where the capacity and the page counts come from separate queries.
- Processes.MockProcesses: the demo list is returned as written. It is not sorted, and its entry with command `postgres: main` is named `postgres`, which is not what the name rule gives (`postgres:`).
