# sighub-tools, modelled in Dafny

This project models four small tools from the SigHub collection and proves properties of them.

- **`sighub.capture`**
  - A `Filter` turns the text `tcpdump -dd` prints into a classic-BPF program.
  - It packs the `sock_fprog` descriptor that `SO_ATTACH_FILTER` takes.
  - A `Capture` opens a raw packet socket and can attach a filter.
  - It binds the socket to an interface and registers a read handler with an event loop.
  - With a finite packet count, that handler counts frames and stops the capture at the limit.
- **`sighub.jsondb`**
  - A wrapper around TinyDB: tables of JSON documents in insertion order.
  - Key/value and one-of queries, plus their negations.
  - A log database that stamps entries with a `ts` and queries timestamp windows.
  - A rotating log database that moves the live table into numbered rotation files once it holds enough entries.
- **`sighub.logtail`**
  - A log-file tail that hands each complete appended line to a callback.
  - A state check that tells whether the watched path still holds the same file, or whether the file was rotated away.
- **`sighub.apt`**
  - A wrapper around `apt` that builds command lines.
  - It picks the packages `install_packages` installs (from `only` and `exclude`) and concatenates the outputs.

## Structure

| file | module | contents |
|---|---|---|
| `pytext.dfy` | `PyText` | The Python text behaviour the tools rely on: `int(s, base)` with its whitespace stripping and sign, decimal and hexadecimal formatting, `str.split` and `str.join`, and `Option`/`Result`/`Outcome`. |
| `bpf.dfy` | `Bpf` | BPF instructions as `struct sock_filter`, the `HBBI` and `HL` packing, the line pattern `JIT_RE`, and the text to instruction conversion. |
| `capture.dfy` | `Capture` | A `Filter` class and a `Capture` class. Each `Capture` method is specified by a step function on a `Session` value. |
| `jsondb.dfy` | `JsonDb` | Tables, queries, timestamping, rotation, and the `LogDB` and `RotatingLogDB` classes over a map of files. |
| `logtail.dfy` | `LogTail` | Line reading on a text, and the `LogTail` class with its reader loop. |
| `apt.dfy` | `Apt` | Command lines, package selection and output accumulation. A `Shell` class records the commands issued. |

## Abstractions

Each of these outside dependencies becomes a parameter or a piece of state:
- **Capture:**
  - The buffer address `ctypes.addressof` returns is a parameter.
  - The socket is a state: no socket, open or closed.
  - What the outside world sees is a trace of `Event`s: socket opened, descriptor attached, bound, reader registered, frame delivered, socket closed, `on_stop` called.
  - A frame the event loop makes readable is a parameter of the handler.
- **JSON database:**
  - The disk is a map from path to tables (`Files`).
  - `datetime.now()` timestamps are integer parameters.
- **Rotation:** which rotation files exist, and their modification times, are a map from path to mtime.
- **Log tail:**
  - What the watched path holds when opened (missing, or an inode and text) is a parameter.
  - So is the inode a `stat` returns now.
  - So is the text the open file reads when inotify reports an event.
  - File positions are character offsets.
- **Apt:** running a command is `Shell.respond`, a fixed function from argument vector to output or failure.

The model follows the code. In these places the code's behaviour is not what the prose description of the tools suggests:
- **Capture:**
  - `_counter` increments the count and calls the user's callback before it checks the limit. So the frame that reaches the limit is delivered, and with a `num <= 0` other than -1 the first frame is delivered and stops the capture.
  - Only `num == -1` means "infinite". Any other negative `num` stops at the first frame.
  - `Filter.load` builds a fresh buffer on each call. `ctypes.create_string_buffer` adds a trailing NUL byte to it.
  - A program of 65536 or more instructions makes the `HL` pack raise after `self.bpf` has already been replaced.
  - `get_prog` returns `self.prog`, which nothing assigns. So it returns `None` even after `load`.
- **JSON database:**
  - With `rotate_times <= 0`, `rotate_files` truncates the live table and then fails to open the empty rotation path. The entries are lost.
  - A `ts` that is not a number makes every timestamp query raise.
- **Apt:** a failed command's `False` is formatted into the output as the text `False`.

## Model

| member | source | states |
|---|---|---|
| PyText.Strip | capture/sighub/capture.py:91-93 | The whitespace `int()` ignores. The result is the slice of the input between an all-whitespace prefix and an all-whitespace suffix, and it neither starts nor ends with whitespace, so exactly the leading and trailing whitespace is removed. |
| PyText.StripExample | capture/sighub/capture.py:91-93 | A concrete text: `"  5 "` strips to `"5"`. |
| PyText.ParseInt | capture/sighub/capture.py:91-93 | `int(s, base)`: a text that is empty or only whitespace raises, and a negative result comes from a text that starts with `-` once stripped. |
| PyText.IntToStringRoundTrip | capture/sighub/capture.py:162 | A count formatted in decimal with `f'{n}'` reads back with `int()` as the same integer, negative ones included. |
| PyText.IntToStringInjective | capture/sighub/capture.py:162 | Different integers are formatted as different decimal texts. |
| PyText.HexRoundTrip | capture/sighub/capture.py:91-93 | A `0x`-prefixed, zero-padded hexadecimal text reads back with `int(s, 16)` as the same number. |
| PyText.SplitJoin | capture/sighub/capture.py:78 | Joining the pieces of `s.split(sep)` with `sep` gives `s` back. |
| PyText.JoinSplit | capture/sighub/capture.py:78 | Splitting a join of separator-free pieces gives exactly those pieces back. |
| Bpf.LittleEndianRoundTrip | capture/sighub/capture.py:96 | A value packed little-endian into `width` bytes unpacks to the same value. |
| Bpf.LittleEndianOfValue | capture/sighub/capture.py:96 | Packing is onto: every byte string is the packing of its value. |
| Bpf.EncodeDecode | capture/sighub/capture.py:96 | The 8-byte `HBBI` encoding of an instruction decodes to the same instruction. |
| Bpf.DecodeEncode | capture/sighub/capture.py:96 | Every 8-byte block is the encoding of the instruction it decodes to. |
| Bpf.SerialiseAppend | capture/sighub/capture.py:101 | `b''.join` of the packed instructions distributes over concatenating programs. |
| Bpf.SerialiseAt | capture/sighub/capture.py:101 | Bytes `8k..8k+8` of the program image are exactly the encoding of instruction `k`. |
| Bpf.SerialiseRoundTrip | capture/sighub/capture.py:101 | The program image splits back into exactly the original instructions. |
| Bpf.DescriptorFields | capture/sighub/capture.py:104 | The `HL` descriptor holds the instruction count in bytes 0-1, six zero padding bytes, and the buffer address in bytes 8-15. |
| Bpf.EncodeExample | capture/sighub/capture.py:96 | A concrete instruction packs to the expected eight bytes, with the opcode and operand little-endian. |
| Bpf.MatchField | capture/sighub/capture.py:44 | A match of one `\s+([^,]+),` piece is a real split of the text: whitespace, then a comma-free group, then a comma. |
| Bpf.MatchLast | capture/sighub/capture.py:44 | A match of `\s+(\S+)` splits the text into whitespace, a non-empty group without whitespace, and a rest that starts at whitespace or is empty. |
| Bpf.MatchSound | capture/sighub/capture.py:84-88 | Every line `re.match(JIT_RE, …)` accepts reassembles from the matched pieces, and those pieces fit the pattern. |
| Bpf.MatchComplete | capture/sighub/capture.py:84-88 | Every line of the pattern's shape is matched. When the split is the greedy one, it is the split found. |
| Bpf.KeepAppend | capture/sighub/capture.py:78-88 | Skipping empty and non-matching lines keeps the rest in order: selection distributes over concatenation. |
| Bpf.KeepMembers | capture/sighub/capture.py:78-88 | The selected fields are exactly those some line yields. |
| Bpf.ConvertAllOk | capture/sighub/capture.py:90-96 | Converting all selected lines succeeds exactly when each line converts. The results are then the per-line results. |
| Bpf.ConvertAllFirstError | capture/sighub/capture.py:90-96 | A failed conversion reports the error of one line, and every line before it converted. |
| Bpf.ConvertAllAppend | capture/sighub/capture.py:90-96 | Converting a concatenation: the results of the first part followed by those of the second, or the second part's error. |
| Bpf.DumpLineParts | capture/sighub/capture.py:43-44 | A `{ 0x.., jt, jf, 0x.. },` line that `tcpdump -dd` prints fits the pattern, splits greedily, and contains no newline. |
| Bpf.DumpLineLoads | capture/sighub/capture.py:84-96 | Each printed line is selected, and it converts back to the instruction it prints. |
| Bpf.DumpRoundTrip | capture/sighub/capture.py:69-106 | Loading the full `tcpdump -dd` output of a program gives back that program. It compiles when it has fewer than 65536 instructions. |
| Bpf.DumpTextRoundTrip | capture/sighub/capture.py:69-106 | The same holds for the output without its final newline. |
| Bpf.ParseFields | capture/sighub/capture.py:90-96 | The four groups convert to an instruction that they denote under `int(…, 16)` and `int(…)`. The `ValueError` case arises exactly when one of them is not an integer literal, and the `struct.error` case exactly when all parse but one is outside its field's range. |
| Bpf.Compile | capture/sighub/capture.py:69-106 | `load`'s verdict on a text: exactly the instructions when every line converts and there are fewer than 65536 of them, the first conversion error otherwise, and the too-long error after every line has converted. |
| Bpf.SkipsOtherDumpLines | capture/sighub/capture.py:80-88 | A line that does not start with `{` between two instruction lines is skipped. |
| Capture.LoadDescriptor | capture/sighub/capture.py:69-106 | `load` succeeds exactly when the text compiles, failing with the compile error otherwise. On success it returns the descriptor of the program's length and the buffer address. |
| Capture.BufferLayout | capture/sighub/capture.py:101 | The buffer is the instructions' 8-byte encodings in order, then one NUL byte. |
| Capture.Filter.constructor | capture/sighub/capture.py:53-67 | A new filter holds its text and count (100 when none is given), with no buffer and no `prog`. |
| Capture.Filter.Load | capture/sighub/capture.py:69-106 | The loop over the lines returns exactly `LoadResult`. The buffer is replaced when every line converts, including when the count then overflows; otherwise it keeps its old value. |
| Capture.Filter.GetProg | capture/sighub/capture.py:108-117 | Returns the `prog` field. |
| Capture.GetProgAfterLoad | capture/sighub/capture.py:108-117 | `get_prog` returns `None` even after a `load`, because nothing assigns `prog`. |
| Capture.NewSession | capture/sighub/capture.py:123-141 | A new capture has count 0, no filter, no event loop, no socket, no handler, no `next`, and has done nothing. |
| Capture.Truncate | capture/sighub/capture.py:179 | `recv(9000)` delivers a prefix of the frame: the whole frame when it fits, otherwise exactly its first 9000 bytes. |
| Capture.DeliveredAll | capture/sighub/capture.py:179 | Frames read by the plain handler are delivered one for one, in order, each truncated. |
| Capture.StatusRoundTrip | capture/sighub/capture.py:154-164 | With a finite filter, the status text reads back as the current count and the limit. Otherwise it is the fixed "capturing infinite packets!" text, which reads back as no count. |
| Capture.Capture.Status | capture/sighub/capture.py:154-164 | With a finite filter, the status text decodes to the capture's count and the filter's limit. Otherwise it is the fixed infinite-capture text. |
| Capture.StopStep | capture/sighub/capture.py:166-173 | `stop` raises without a socket. Otherwise the socket ends closed, `SocketClosed` is recorded when it was open, then `StopCalled` when there is an `on_stop`, and nothing else in the session changes. |
| Capture.ReadStep | capture/sighub/capture.py:175-179 | `_callback` succeeds exactly on an open socket, and then delivers the truncated frame and changes nothing else. On a missing or closed socket it raises and changes nothing. |
| Capture.CounterStep | capture/sighub/capture.py:181-189 | `_counter` always increments the count, also when the read that follows raises. Without `next` it raises. On an open socket it delivers the truncated frame. It closes the socket exactly when the count reaches the filter's `num`, and then records the close and, when set, the `on_stop` call after the delivery. |
| Capture.EnableStep | capture/sighub/capture.py:191-220 | `enable` succeeds exactly when an event loop is set and the filter, if any, loads. It never changes the count, the filter or the event loop. |
| Capture.WithEventLoop | capture/sighub/capture.py:143-146 | Setting the event loop changes only that part of the session. |
| Capture.WithFilter | capture/sighub/capture.py:148-152 | Setting a filter replaces the filter and changes nothing else. |
| Capture.EnableContract | capture/sighub/capture.py:191-220 | `enable` with no event loop raises and changes nothing. A filter that fails to load leaves the socket open, unbound and with no handler. Otherwise the socket is opened, the descriptor attached when there is a filter, the socket bound, and `_counter` registered exactly when the filter has a finite count, else `_callback`. |
| Capture.StopContract | capture/sighub/capture.py:166-173 | `stop` on an open socket closes it and then calls `on_stop` when there is one. |
| Capture.FeedAppend | capture/sighub/capture.py:175-189 | Handling frames one after another: handling `a + b` is handling `a`, then `b` from where `a` left off, stopping at the first error. |
| Capture.PlainNeverStops | capture/sighub/capture.py:175-220 | Without a finite count, every frame is delivered, truncated and in order, and the socket stays open. |
| Capture.CountingBelowLimit | capture/sighub/capture.py:181-189 | Below the limit the counter delivers each frame and counts it, and does not stop. |
| Capture.CountingFeedToLimit | capture/sighub/capture.py:181-189 | Exactly the frames up to and including the one that reaches the limit are delivered, and then the socket is closed and `on_stop` called. |
| Capture.CountingStopsAtLimit | capture/sighub/capture.py:166-189 | A frame after the limit makes the read fail on the closed socket, and nothing more is delivered. |
| Capture.BoundedCapture | capture/sighub/capture.py:143-220 | From a new capture with a filter counting `n >= 1`: set the event loop, set the filter, enable. The first `n` frames are then delivered, the capture stops, and the count is `n`. |
| Capture.UnboundedCapture | capture/sighub/capture.py:175-220 | With no filter or an infinite one, `enable` succeeds and every frame that follows is delivered, with the socket left open. |
| Capture.Capture.constructor | capture/sighub/capture.py:123-141 | The object's state is the new session, with no filter object. |
| Capture.Capture.SetEventLoop | capture/sighub/capture.py:143-146 | Updates the state as `WithEventLoop` does. |
| Capture.Capture.SetFilter | capture/sighub/capture.py:148-152 | Stores the filter object, and updates the state as `WithFilter` does. |
| Capture.Capture.Stop | capture/sighub/capture.py:166-173 | The new state and the outcome are the stop step's: a missing socket raises, an open one is closed, and `on_stop` is called, again so on an already closed socket. |
| Capture.Capture.Callback | capture/sighub/capture.py:175-179 | The new state and outcome are the read step's: a frame is delivered from an open socket, and the read raises on a closed or missing one. |
| Capture.Capture.Counter | capture/sighub/capture.py:181-189 | The new state and outcome are the counter step's: count, forward through `next`, and stop at the limit. |
| Capture.Capture.Enable | capture/sighub/capture.py:191-220 | The new state and outcome are the enable step's. The filter's buffer is rebuilt exactly when `load` ran and every line converted. The filter's `prog` is never changed. |
| Capture.Capture.OnReadable | capture/sighub/capture.py:214-220 | The event loop's call of the registered handler: the step of whichever handler `enable` chose. |
| JsonDb.NumberOf | jsondb/sighub/jsondb.py:159 | A JSON value compares as a number exactly when it is a number or a boolean. |
| JsonDb.Select | jsondb/sighub/jsondb.py:90-92 | A search returns no more documents than the table holds: exactly those satisfying the query. |
| JsonDb.SelectAppend | jsondb/sighub/jsondb.py:90-92 | A search keeps table order: searching a concatenation is concatenating the searches. |
| JsonDb.SearchAppend | jsondb/sighub/jsondb.py:89-92 | A search keeps table order: searching a concatenation concatenates the searches. |
| JsonDb.SelectPartition | jsondb/sighub/jsondb.py:89-92 | A query and its negation split the table: together their results are the table, as a multiset. |
| JsonDb.SearchPartition | jsondb/sighub/jsondb.py:89-108 | Every document is found by exactly one of `search(q)` and `search(~q)`. |
| JsonDb.SearchTsAppend | jsondb/sighub/jsondb.py:150-187 | A timestamp search keeps order across a concatenation. It raises if either part has a `ts` that is not a number. |
| JsonDb.WindowsSplit | jsondb/sighub/jsondb.py:150-187 | `before(t)`, `between(t, t)` and `after(t)` cover every timestamp, and `before` and `after` never overlap. `between(t, t)` is exactly `t`. |
| JsonDb.Stamped | jsondb/sighub/jsondb.py:131-132 | Stamping adds `ts` only when it is missing, using the current time, and leaves every other field alone. |
| JsonDb.StampedIdempotent | jsondb/sighub/jsondb.py:131-132 | Stamping twice is stamping once: a present `ts` is never overwritten. |
| JsonDb.StampAll | jsondb/sighub/jsondb.py:144-146 | Each entry is stamped with its own time, and the order is kept. |
| JsonDb.AppendKeepsStamped | jsondb/sighub/jsondb.py:136-148 | A table whose entries all carry `ts` still does after `append_multiple`. |
| JsonDb.WithTable | jsondb/sighub/jsondb.py:52-55 | Writing a table replaces exactly that table of that file. |
| JsonDb.WithTableTwice | jsondb/sighub/jsondb.py:52-55 | A second write of the same table replaces the first. |
| JsonDb.SlotPathInjective | jsondb/sighub/jsondb.py:271 | Rotation files `path.0`, `path.1`, … have distinct names. |
| JsonDb.FirstStale | jsondb/sighub/jsondb.py:270-284 | The scan's first missing slot, or first slot older than the one before it, with every earlier slot neither. |
| JsonDb.NextRotationChoice | jsondb/sighub/jsondb.py:266-286 | The result is empty exactly when there are no slots. Otherwise it is one of the slots: the first stale one, or slot 0 when none is stale. |
| JsonDb.NextRotation | jsondb/sighub/jsondb.py:266-286 | With at least one slot, the next rotation file is one of the `times` slot paths. |
| JsonDb.Rotate | jsondb/sighub/jsondb.py:228-255 | A rotation fails exactly when the table has reached the threshold and there are no slots, and then with the error of opening the empty path. |
| JsonDb.AllFreshPicksFirst | jsondb/sighub/jsondb.py:278-281 | When every rotation file exists, in order of age, slot 0 is overwritten. |
| JsonDb.RotateContract | jsondb/sighub/jsondb.py:228-255 | Below the threshold nothing changes. At or above it, the chosen slot holds exactly the old entries, the live table is empty (unless it is the slot) and no other table changes. With no slots, the entries are lost and the call fails. |
| JsonDb.RotateAgree | jsondb/sighub/jsondb.py:228-264 | Rotation depends only on table contents: databases that agree rotate to databases that agree, with the same outcome. |
| JsonDb.LogDB.constructor | jsondb/sighub/jsondb.py:29-40 | The database records its path, its table and its read-only switch. |
| JsonDb.LogDB.GetAll | jsondb/sighub/jsondb.py:69-78 | `get_all` returns the current table of the database file, and an empty table when the file or the table does not exist yet. |
| JsonDb.LogDB.SetTable | jsondb/sighub/jsondb.py:41-44 | Switches the current table and leaves the data alone. |
| JsonDb.LogDB.Insert | jsondb/sighub/jsondb.py:46-55 | A read-only database raises and is unchanged. Otherwise the entry is added at the end of the current table, and no other table changes. |
| JsonDb.LogDB.InsertMultiple | jsondb/sighub/jsondb.py:57-67 | A read-only database raises and is unchanged. Otherwise the entries are added at the end in order, and the database agrees with one that wrote the new table at once. |
| JsonDb.LogDB.GetMatches | jsondb/sighub/jsondb.py:80-94 | The documents for which every given field has the given value, or, with `negate`, those for which some field differs. |
| JsonDb.LogDB.GetFieldIn | jsondb/sighub/jsondb.py:96-110 | The documents whose field has one of the values, or, with `negate`, the rest. |
| JsonDb.MatchesPartition | jsondb/sighub/jsondb.py:80-94 | `get_matches` and its negated form partition the table. |
| JsonDb.FieldInPartition | jsondb/sighub/jsondb.py:96-110 | `get_field_in` and its negated form partition the table. |
| JsonDb.LogDB.Append | jsondb/sighub/jsondb.py:123-134 | Read-only raises and nothing is written. Otherwise the stamped entry is added at the end; it keeps an existing `ts`. |
| JsonDb.LogDB.AppendMultiple | jsondb/sighub/jsondb.py:136-148 | Read-only raises and nothing is written. Otherwise the entries are stamped one by one and added at the end in order. |
| JsonDb.LogDB.GetAfter | jsondb/sighub/jsondb.py:150-161 | This raises exactly when some `ts` is not a number. Otherwise it returns the documents whose `ts` is later than the given time. |
| JsonDb.LogDB.GetBefore | jsondb/sighub/jsondb.py:163-174 | This raises exactly when some `ts` is not a number. Otherwise it returns the documents whose `ts` is earlier than the given time. |
| JsonDb.LogDB.GetBetween | jsondb/sighub/jsondb.py:176-187 | This raises exactly when some `ts` is not a number. Otherwise it returns the documents whose `ts` lies in the closed interval. |
| JsonDb.RotatingLogDB.constructor | jsondb/sighub/jsondb.py:190-206 | A log database with the given threshold, slot count and rotation base path. |
| JsonDb.RotatingLogDB.NextRotationFile | jsondb/sighub/jsondb.py:266-286 | The loop over the slots returns exactly the slot `NextRotation` specifies. |
| JsonDb.RotatingLogDB.CreatedRotated | jsondb/sighub/jsondb.py:257-264 | The rotation file's table holds exactly the given entries. The empty path fails. |
| JsonDb.RotatingLogDB.RotateFiles | jsondb/sighub/jsondb.py:228-255 | Read-only raises. Otherwise the files and the outcome are those `Rotate` specifies. |
| JsonDb.RotatingLogDB.Append | jsondb/sighub/jsondb.py:208-216 | An append followed by a rotation of the grown table. |
| JsonDb.RotatingLogDB.AppendMultiple | jsondb/sighub/jsondb.py:218-226 | A multiple append followed by a rotation of the grown table. |
| LogTail.LineEnd | logtail/sighub/logtail.py:129 | The end of a line read lies past its start and within the text. |
| LogTail.LinesComplete | logtail/sighub/logtail.py:129-145 | Every line handed to the callback ends with its only newline. |
| LogTail.LinesSplit | logtail/sighub/logtail.py:129-145 | The lines handed on are the text from the position up to its last newline, in order. What remains has no newline. |
| LogTail.LinesResume | logtail/sighub/logtail.py:129-145 | Reading on after the file has grown hands on what one read of the grown file would have: no line is lost, repeated or split. |
| LogTail.FromEnd | logtail/sighub/logtail.py:48-53 | Started at the end of the existing text, the tail reports exactly the complete lines appended afterwards. |
| LogTail.LogTail.constructor | logtail/sighub/logtail.py:20-61 | A missing path sets `force` and opens nothing. Otherwise the inode is recorded. With `full`, every complete line already in the file is handed on; without it, reading starts at the end. |
| LogTail.LogTail.Reset | logtail/sighub/logtail.py:63-86 | The path is reopened from the start and its inode recorded. A missing path sets `force` and keeps the old file. |
| LogTail.LogTail.State | logtail/sighub/logtail.py:88-107 | A pending `force` reports a rotation once and is cleared. Otherwise the result is an error when the path or the recorded inode is unavailable, "exists" when the inode is unchanged, and "rotated" when it differs. |
| LogTail.LogTail.Reader | logtail/sighub/logtail.py:110-147 | A move event or a missing path does nothing. A file never opened calls the error callback once. Otherwise every complete line from the position is handed on in order, and the position stops at a trailing partial line. |
| Apt.Parse | apt/sighub/apt.py:21-38 | A recognised argument vector is exactly the one built for the command it is recognised as. |
| Apt.ParseArgv | apt/sighub/apt.py:21-38 | Every command's argument vector is recognised as that command. |
| Apt.ArgvInjective | apt/sighub/apt.py:21-38 | Different commands issue different argument vectors. |
| Apt.Chosen | apt/sighub/apt.py:51-55 | At most as many packages are installed as were listed. |
| Apt.ChosenMembers | apt/sighub/apt.py:51-55 | A package is installed exactly when it is listed, not excluded, and in `only` when `only` is given. |
| Apt.ExcludeWins | apt/sighub/apt.py:52-55 | An excluded package is never installed, even when `only` names it. |
| Apt.NoListsTakesAll | apt/sighub/apt.py:51-57 | Without `only` and `exclude`, every listed package is installed, in order. |
| Apt.ChosenSnoc | apt/sighub/apt.py:51-57 | Packages are processed in order: one more listed package is installed after the others exactly when it is selected. |
| Apt.AccumulateText | apt/sighub/apt.py:48-57 | The output is the update's output followed by each install's output in order, a failure reading as `False`. |
| Apt.InstallAll | apt/sighub/apt.py:21-26 | One install command per selected package, in order. |
| Apt.Responses | apt/sighub/apt.py:9-19 | Each command gets its own response, in order. |
| Apt.UpdateFirstOnce | apt/sighub/apt.py:40-59 | `install_packages` runs the update exactly once, first, then one install per selected package in order, and no other command. |
| Apt.EchoUpdate | apt/test/test_apt.py:47-50 | With `echo` as the binary, `update` outputs "update -y" and a newline. |
| Apt.EchoInstall | apt/test/test_apt.py:37-40 | With `echo` as the binary, `install_upgrade` outputs "-y install", the package and a newline. |
| Apt.EchoReinstall | apt/test/test_apt.py:42-45 | With `echo` as the binary, `reinstall` outputs "-y install --reinstall", the package and a newline. |
| Apt.EchoTwoPackages | apt/test/test_apt.py:17-35 | With `echo` as the binary, installing `pkg1` and `pkg2` outputs the update line and the two install lines. |
| Apt.EchoArgv | apt/test/test_apt.py:29-30 | `echo` never prints its own name, so an echoed command's output does not depend on the binary it names. |
| Apt.EchoAnyBinary | apt/test/test_apt.py:29-35 | Under an echoing shell, `install_packages` outputs the same with `APT_BIN` as with the test's `echo` binary. |
| Apt.EchoTestRun | apt/test/test_apt.py:17-35 | Running `install_packages` on `pkg1` and `pkg2` with a shell that echoes its commands returns the test's expected text. |
| Apt.Shell.constructor | apt/sighub/apt.py:9-19 | A shell that has run nothing yet. |
| Apt.Shell.Run | apt/sighub/apt.py:9-19 | Records the command as issued and returns its response: its output, or a failure. |
| Apt.InstallUpgrade | apt/sighub/apt.py:21-26 | Issues exactly `apt -y install <package>` and returns its response. |
| Apt.DoReinstall | apt/sighub/apt.py:28-33 | Issues exactly `apt -y install --reinstall <package>` and returns its response. |
| Apt.DoUpdate | apt/sighub/apt.py:35-38 | Issues exactly `apt update -y` and returns its response. |
| Apt.InstallPackages | apt/sighub/apt.py:40-59 | The loop issues exactly the update followed by the selected installs. It returns their outputs concatenated in that order. |

## Left out

- Raw sockets: `socket.socket`, `setsockopt`, `bind` and `fileno` are not modelled. Opening, attaching, binding and closing appear as events in the trace, and `recv` is modelled only as the truncation to 9000 bytes.
- Capture.EnableStep: socket creation, `SO_ATTACH_FILTER` and `bind` are taken to succeed. Their `OSError` paths are not modelled: a raw socket refused without privilege, a program the kernel rejects (such as the empty one, which `Compile` accepts), and an unknown interface.
- The asyncio event loop: `add_reader` records the chosen handler, and each readable frame is a call of `Capture.OnReadable`. Scheduling and concurrency are not modelled. `Capture.Feed` stops at the first handler call that raises, where asyncio would log the exception and keep the reader. In the model a registered handler can only raise once the socket is closed, and the closed socket delivers no more frames, so the stop loses nothing.
- `ctypes`: the buffer's address is a parameter. The host's `struct` layout is fixed as 64-bit little-endian Linux.
- Python `int()` accepts underscores between digits and non-ASCII digits. Neither appears in `tcpdump -dd` output, and the model rejects both.
- The regular-expression engine is modelled only for `JIT_RE`, by the split into pieces it produces.
- TinyDB's storage, JSON serialisation, document ids and caching are not modelled. Cross-type comparisons other than numbers and booleans are not modelled either.
- `BYTES` rotation units (`sys.getsizeof(json.dumps(...))`) are not modelled. Rotation always counts entries.
- `datetime.now()`: timestamps are integer parameters, so fractional timestamps are not modelled.
- `os.path.exists` and `os.path.getmtime` are a map from path to mtime. Race conditions between the checks are not modelled.
- JsonDb.LogDB.Append: Python updates the caller's dictionary in place. The model returns the stamped entry as `stamped`, so the aliasing is not modelled. The same holds for JsonDb.LogDB.AppendMultiple and the `RotatingLogDB` versions.
- `KeyedDB`, which the JSON database tests also exercise, is not part of this model.
- inotify, the notifier thread and the callbacks' side effects are not modelled. An event is a call of `LogTail.LogTail.Reader` with its mask.
- LogTail.LogTail.Reader: the wait loop after `IN_MOVE_SELF` (sleep until the path reappears or the timeout passes) is not modelled. A move event leaves the tail unchanged.
- File positions are character offsets rather than `tell()` cookies. The source rewinds a partial line by subtracting its character count from a byte-based cookie, so LogTail.LinesResume holds for the source only when partial lines are single-byte text. With multibyte characters the source does not return to the line's start. Universal-newline translation is not modelled; a line ends at `\n` only.
- `subprocess.check_output`: a command's output or failure is given by `Shell.respond`. Running processes, their environment and their exit codes are not modelled.
- The twisted integration module and the packaging files are not part of this model.
