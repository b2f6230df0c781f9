# ROS bag recorder core, modelled in Dafny

This project models the logic behind a desktop front end for `rosbag`. The GUI
widgets, process spawning and file I/O are not part of the model. Three pieces are modelled:

- **The bag-metadata store** (`FileSystemInterface`). It keeps a mapping from bag file
  name to `{description, date, name}`. It parses `{prefix}_{timestamp}.bag` names into
  a name and a `dd-mm-yyyy` date. It reconciles the mapping against the `.bag` files of
  a directory listing. It also supports adding and removing single entries. The
  directory listing and the outcome of reading the description file are parameters.
  Reading the file is `Option<map>`: `None` means that opening or reading it raised `IOError` or that its text is not valid JSON.
- **The record-command generator** (`RosCommandGenerator`). It builds the
  `rosbag record -o <dir><prefix> [key value]… [topic]…` command string from the bag
  directory, a prefix, an ordered option list and the topics.
- **The record presenter** (`RecordPresenter`). It runs the ordered validation chain
  over topics, prefix, duration and message count, which yields either an error message
  or a command. It keeps the `isCommandValid` flag that gates starting a recording.
  It also has the start/stop state.

`Text` gives Python's `str.split`, `str.join`, `str.endswith` and clamped slicing
as Dafny functions. `Maybe` gives `Option` and `Result`. `RecordedBags` connects the
record page to the bag list. The recorder writes `<prefix>_<timestamp>.bag`. A
prefix the record page accepts can still hold `.` or `_`, and the parser treats both as
separators. A dotted prefix such as `v1.2` gives a file name that cannot be parsed,
so every later load raises `IndexError`. A prefix with `_` is cut at its first `_`.

Python exceptions that escape a method after it has partly changed the object are
modelled by `Outcome = Done(state) | Raised(error, state)`, where `state` is what the
object holds afterwards. Examples are an `IndexError` half-way through the sync loop,
and `os.remove` failing after `pop`.

Three behaviours of the code that are easy to miss:

- The generator adds no timestamp and no `.bag` suffix. The `-o` argument is exactly
  the directory followed by the prefix.
- A load is not failure-free. A listed `.bag` name that is not already a key and
  cannot be parsed raises `IndexError` out of the sync. The entries added before it
  stay in the in-memory mapping, and the description file is not rewritten.
- `removeBag` pops the entry before deleting the file. So a missing file raises
  after the entry is already gone.

## Model

| member | source | states |
|---|---|---|
| Text.Split | src/logic/fileSystemInterface.py:148 | `str.split` on one character. There is at least one piece, and no piece contains the separator. |
| Text.SplitFirst | src/logic/fileSystemInterface.py:148 | There is exactly one piece iff the separator does not occur. The first piece is the text before the first separator. |
| Text.JoinSplit | src/logic/fileSystemInterface.py:148 | Joining the pieces of a split with the separator gives back the original string. |
| Text.SplitJoin | src/logic/fileSystemInterface.py:148 | Splitting a join gives back the pieces, when no piece contains the separator. |
| Text.Slice | src/logic/fileSystemInterface.py:150-154 | Python's `s[lo:hi]`. Within range it is the subsequence. When only `hi` is past the end, it is the rest of `s` from `lo`, so `"2024"[0:10]` is `"2024"`. It is empty when `lo` is at or past the end or `hi <= lo`. |
| Text.SliceConcat | src/logic/fileSystemInterface.py:150-154 | Adjacent slices concatenate: `s[lo:mid] + s[mid:hi] == s[lo:hi]` for `lo <= mid <= hi`, clamping included. |
| FileSystemInterface.ReformatDate | src/logic/fileSystemInterface.py:150-156 | For a stamp of at least ten characters, the date has ten characters. Characters 8-9 of the stamp come first, then `-`, then characters 5-6, then `-`, then characters 0-3. A stamp of at most four characters gives `--` followed by the stamp. |
| FileSystemInterface.ParseBagName | src/logic/fileSystemInterface.py:136-156 | Parsing succeeds iff an `_` occurs before the first `.`. Otherwise it raises `IndexError`. The name is the prefix of the file name up to that `_`, and it contains neither `_` nor `.`. |
| FileSystemInterface.ParseConvention | src/logic/fileSystemInterface.py:148-156 | A name `prefix_stamp` followed by nothing, by `.ext` or by `_…` parses to `prefix`. The date is `stamp[8:10]-stamp[5:7]-stamp[0:4]`, which has 10 characters when the stamp has at least 10. |
| FileSystemInterface.ParseExample | src/logic/fileSystemInterface.py:148-156 | `run1_2024-03-05-10-30-00.bag` parses to name `run1` and date `05-03-2024`. |
| FileSystemInterface.ParseWithoutUnderscore | src/logic/fileSystemInterface.py:148-150 | A name without any `_` raises `IndexError`. |
| FileSystemInterface.BagFileNames | src/logic/fileSystemInterface.py:105-111 | The loaded names are exactly the listing entries that end in `.bag`. |
| FileSystemInterface.BagFileNamesAppend | src/logic/fileSystemInterface.py:105-111 | The filter keeps listing order: filtering a concatenation of listings concatenates the filtered parts. |
| Text.EndsWith | src/logic/fileSystemInterface.py:108 | `s.endswith(suffix)` holds iff `s` is some text followed by `suffix`. |
| FileSystemInterface.AddMissing | src/logic/fileSystemInterface.py:121-128 | The first sync loop keeps every existing entry. It adds only listed names, each with an empty description and its parsed name and date. It completes iff every listed name is present or parses, and then every listed name is a key. |
| FileSystemInterface.Prune | src/logic/fileSystemInterface.py:130-132 | The second sync loop keeps exactly the keys that are listed, with their values unchanged. |
| FileSystemInterface.Sync | src/logic/fileSystemInterface.py:113-134 | After a completed sync, the key set is exactly the listed names. Entries already present keep their value. New names get an empty description plus the parsed name and date. It raises `IndexError` iff some new name does not parse, and then no entry has been dropped or changed. |
| FileSystemInterface.SyncIdempotent | src/logic/fileSystemInterface.py:113-134 | If a sync succeeds with mapping `m1`, syncing `m1` against the same listing succeeds with `m1` again. |
| FileSystemInterface.AddMissingPresent | src/logic/fileSystemInterface.py:121-122 | When every listed name is already a key, the first loop changes nothing and cannot raise. |
| FileSystemInterface.Load | src/logic/fileSystemInterface.py:69-93 | A file whose opening raises `IOError` or whose text is not valid JSON counts as the empty mapping. The load completes iff every listed `.bag` name that the file does not hold parses, and otherwise it raises `IndexError`. After a completed load, the keys are exactly the listed `.bag` files. Every listed name the file lacks gets an empty description and its parsed name and date. Entries read from the file keep their value. |
| FileSystemInterface.FileContents | src/logic/fileSystemInterface.py:76-91 | The mapping a load starts from: the parsed file, or `{}` when either handler fires. Its meaning is given through `Load`'s contract. |
| FileSystemInterface.LoadTwice | src/logic/fileSystemInterface.py:69-93 | If a load succeeds with mapping `m1`, loading again with `m1` as the description file and the same directory succeeds with `m1`. |
| FileSystemInterface.AddBag | src/logic/fileSystemInterface.py:25-42 | It succeeds iff the name parses, and a failing parse leaves the mapping unchanged. On success it sets only the given key, with the given description and the parsed name and date. Every other entry is unchanged. |
| FileSystemInterface.RemoveBag | src/logic/fileSystemInterface.py:44-56 | An absent key raises `KeyError` and changes nothing. A present key is removed and nothing else is. If its file is missing, the error comes after the pop and no file is deleted. Otherwise the file is deleted from the directory. |
| RosCommandGenerator.FlagWords | src/logic/rosCommandGenerator.py:33-34 | The options become words in mapping order: key `i` at position `2i` and its value at `2i+1`. |
| RosCommandGenerator.FlagWordsAppend | src/logic/rosCommandGenerator.py:33-34 | The words of concatenated option lists are the concatenated words. |
| RosCommandGenerator.OptionStep | src/logic/rosCommandGenerator.py:33-34 | Each further option adds exactly `" " + key + " " + value` at the end. |
| RosCommandGenerator.TopicStep | src/logic/rosCommandGenerator.py:36-37 | Each further topic adds exactly `" " + topic` at the end. |
| RosCommandGenerator.RecordCommand | src/logic/rosCommandGenerator.py:27-39 | The generator's command as one expression. Its meaning is given by `CommandIsJoinedArgv` and `ArgvRoundTrip`: it is the argument vector joined by spaces. |
| RosCommandGenerator.CommandIsJoinedArgv | src/logic/rosCommandGenerator.py:27-39 | The command is its argument vector joined by single spaces. The vector is `rosbag`, `record`, `-o`, the directory immediately followed by the prefix, the option keys and values in order, then the topics in order. |
| RosCommandGenerator.JoinedWords | src/logic/rosCommandGenerator.py:27-29 | Joining a four-word head and further words gives the head words separated by spaces, followed by each further word with one leading space. |
| RosCommandGenerator.ArgvRoundTrip | src/logic/rosCommandGenerator.py:27-39 | When no argument contains a space, splitting the command at spaces gives back the argument vector. The fourth argument is exactly directory + prefix, with no timestamp and no `.bag`. |
| RosCommandGenerator.CommandBegins | src/logic/rosCommandGenerator.py:27-31 | The command starts with `rosbag record -o `, then the directory, then the prefix, with no separator between them. |
| RosCommandGenerator.BareCommand | src/logic/rosCommandGenerator.py:27-39 | With no options and no topics, the command is exactly `rosbag record -o ` + directory + prefix. |
| RosCommandGenerator.AppendOptions | src/logic/rosCommandGenerator.py:33-34 | The first loop appends, for each option in mapping order, a space, its key, a space and its value. |
| RosCommandGenerator.AppendTopics | src/logic/rosCommandGenerator.py:36-37 | The second loop appends, for each topic in list order, a space and the topic. |
| RosCommandGenerator.GenerateRosBagRecordCommand | src/logic/rosCommandGenerator.py:10-39 | The loop-built string is the argument vector joined by single spaces, and it equals the functional `RecordCommand`. |
| RecordPresenter.RecordOptions | src/pages/recordFrame/recordPresenter.py:159-177 | `--duration` is present iff the duration entry is non-empty. `--limit` is present iff the number entry is non-empty. No other option appears, each appears at most once, and when both are given `--duration` comes first. |
| RecordPresenter.IsNumber | src/pages/recordFrame/recordPresenter.py:173 | `\d+$` matches iff the greedy digit run from the start is non-empty and reaches the end. |
| RecordPresenter.IsDuration | src/pages/recordFrame/recordPresenter.py:162-163 | `\d+$` or `\d+[mhMH]$` matches iff the greedy digit run is non-empty and is followed by the end, or by one of `m`, `h`, `M`, `H` and then the end. |
| RecordPresenter.IsValidPrefix | src/pages/recordFrame/recordPresenter.py:154 | `^[a-zA-Z0-9_.-]+$` matches iff the greedy run of letters, digits, `_`, `.` and `-` is non-empty and reaches the end. |
| RecordPresenter.GenerateCommand | src/pages/recordFrame/recordPresenter.py:138-182 | It succeeds iff there are topics, the prefix is non-empty and all in `[A-Za-z0-9_.-]`, the duration is empty or digits with at most one trailing `m/h/M/H`, and the number is empty or digits. The first failing check decides the message, in the order topics, empty prefix, prefix characters, duration, number. On success it gives the generator's command for those options. |
| RecordPresenter.PrefixExamples | src/pages/recordFrame/recordPresenter.py:154-156 | `bad name!` is rejected and `bad_name-1.2` is accepted. |
| RecordPresenter.DurationExamples | src/pages/recordFrame/recordPresenter.py:161-170 | `30`, `1m`, `2h` and `5H` are accepted. `m`, `1mh`, `1s` and `1.5` are rejected. |
| RecordPresenter.GeneratedArguments | src/pages/recordFrame/recordPresenter.py:174-180 | For space-free directory and topics, a generated command splits into `rosbag record -o dir+prefix`, the validated options, then the checked topics. |
| RecordPresenter.HandleGenerateCommand | src/pages/recordFrame/recordPresenter.py:143-182 | The flag ends up true iff the whole chain passes. The box then holds the command, and otherwise the first error message. The recording state is untouched. |
| RecordPresenter.HandleStartRecord | src/pages/recordFrame/recordPresenter.py:94-104 | With the flag false it shows `Build command first`, spawns nothing, and keeps the flag and recording state. With the flag true it spawns exactly the command in the box, keeps the box, and starts recording. |
| RecordPresenter.HandleStopRecord | src/pages/recordFrame/recordPresenter.py:114-130 | Recording ends. The flag and the staged command are kept. |
| RecordPresenter.Step | src/pages/recordFrame/recordView.py:329-351 | An enabled button runs its handler: generate always, start while nothing records, stop while recording. A start press while recording and a stop press while idle change nothing. Only a start press while idle spawns a process, and a recording then runs. Generating spawns nothing and leaves the recording state alone. |
| RecordPresenter.RunSpawnsBetweenStops | src/pages/recordFrame/recordView.py:329-351 | Recordings never overlap. Over any sequence of actions, the processes spawned are at most the stop presses, plus one if nothing was recording at the start. |
| RecordPresenter.StepKeepsStaged | src/pages/recordFrame/recordPresenter.py:94-104 | No user action can leave the flag set without a generated command in the box. Anything an action spawns is a generated command. |
| RecordPresenter.RunSpawnsOnlyGenerated | src/pages/recordFrame/recordPresenter.py:138-182 | Over any sequence of generate, start and stop actions, the staging invariant holds, and every spawned command is one the validation chain accepted. |
| RecordPresenter.InitialStaged | src/pages/recordFrame/recordPresenter.py:81-85 | From a fresh presenter (flag false), every command spawned by any sequence of actions is a generated command. |
| RecordPresenter.GeneratedShape | src/pages/recordFrame/recordPresenter.py:154-180 | A generated command begins with `rosbag record -o ` and the bag directory, followed by a prefix that passed the prefix check. |
| RecordedBags.RecordedNameParses | src/logic/fileSystemInterface.py:148-156 | A bag recorded with a prefix free of `_` and `.` parses back to that prefix and the timestamp's date. |
| RecordedBags.DottedPrefixUnparsable | src/logic/fileSystemInterface.py:148-150 | A bag recorded with a prefix holding `.` but no `_` cannot be parsed. |
| RecordedBags.UnderscorePrefixMisread | src/logic/fileSystemInterface.py:148-149 | A bag recorded with a prefix holding `_` parses, but to a name that is not the prefix. |
| RecordedBags.RecordedFileIsListed | src/logic/fileSystemInterface.py:107-109 | A recorded file name ends in `.bag`, so the load's filter keeps it. |
| RecordedBags.DottedPrefixBreaksLoad | src/logic/fileSystemInterface.py:74-93 | If the directory holds a bag recorded with an accepted dotted prefix that the description file does not know, loading raises `IndexError`. |
| RecordedBags.DottedPrefixAccepted | src/pages/recordFrame/recordPresenter.py:154 | The prefix `v1.2` passes the record page's prefix check. |

## Left out

- File I/O: JSON serialisation with a 4-space indent (`writeJsonToFile`), creating the directory and the empty file, and `os.remove` itself. A call that completes writes the mapping it leaves. A call that raises never reaches `writeJsonToFile`: this happens when `_parsebagName` raises in the sync, and when `os.remove` raises in `removeBag`. Then the file keeps its earlier contents, and only the in-memory mapping holds the `Raised` state. The directory is a listing (`seq<string>`) or a set of file names.
- A description file that is not valid UTF-8. `file.read()` then raises `UnicodeDecodeError`, which neither handler in `loadDescriptionJson` catches, so the load fails with that error rather than starting empty. The model's `Option` has no case for it.
- Description-file contents that are not objects of the form `{description, date, name}` (for example a JSON list). Nothing reads the values, and such content is not representable here.
- The directory path constants, which are not defined in the constants file. The bag directory is a parameter, and `os.path.join` is not modelled.
- Process handling: `subprocess.Popen`, `shlex.split`, the `psutil` scan and SIGINT in start and stop. `rostopic list` in `run` is also left out. Start reports the command text it would spawn, and stop only clears the recording flag. `Text.Split` at spaces stands in for `shlex.split` only for arguments free of spaces, quotes and backslashes.
- The command text box returns its content with a trailing newline. This is not modelled, because `shlex.split` drops it.
- Python regex corner cases: `\d` matching non-ASCII digits, and `$` matching before a trailing newline. Inputs are taken to be ASCII without newlines.
- Widget code: topic selection by drop-down, terminal output text, enabling and disabling widgets. The only part kept is that start is ignored while recording and stop is ignored while not recording, as used by `RecordPresenter.Step`.
- The bag-list presenter's `rosbag play` shell-out and the thin presenter wrappers that only forward to the store.
