# seehell: prompt, input loop and echo server, modelled in Dafny

seehell is a small interactive C shell. This project models the parts of it
that are sequential string logic:

- **getprompt** (`main.c`): builds the prompt `name@host:` in a heap buffer
  from the user name and the host name.
- **the interactive loop of `main`** (`main.c`): show the prompt, read a line,
  cut it at its newline, then stop on `halt`, print the help text on `help`
  and print `Unrecognized command.` for anything else. A NULL prompt or input
  buffer exits with `ERR_MALLOC` (1). A NULL from `fgets` exits with
  `ERR_FGETS` (2).
- **the echo server's request handling** (`demo_server.c`): each read of up
  to 4096 bytes gets a terminating NUL in the fixed buffer. The bytes read are
  upper-cased, and the buffer's C string is written back. This repeats until
  `read` returns 0 or less, and then the data socket is closed.

Modules, one per concern:

| file | module | contents |
|---|---|---|
| `options.dfy` | `Options` | `Option`, standing for a pointer that may be NULL |
| `cstr.dfy` | `CStr` | C strings: `UntilNul` (the characters before the first NUL), `Strlen`, `Strcspn`, `StrEqual` (`strcmp(...) == 0`) |
| `prompt.dfy` | `Prompt` | the host-name buffer, getprompt's stores as a list of writes into a bounded heap buffer, the overflow, the corrected prompt, an array implementation |
| `shell.dfy` | `Shell` | newline cutting, dispatch, the Running/Halted machine, `main`'s loop and exit codes |
| `echo_server.dfy` | `EchoServer` | `toupper`, terminator placement, the reply to one read, the loop over one connection |

Modelling choices:

- The user name and the host name come from foreign calls (`getpwuid`,
  `gethostname`), so they are parameters.
- The host-name buffer is modelled byte for byte. Line 27 stores NUL at index
  255. `gethostname(hostname, 254)` then copies at most 254 bytes. Byte 254
  is never written, so its uninitialised contents are a parameter (`junk`). A
  host name of 254 or more characters therefore yields a string of 254 or
  255 characters, depending on that byte.
- Heap stores are `Write(index, value)` values applied by `Prompt.Store`.
  `Store` is undefined (`None`) as soon as a store falls outside the buffer.
- Standard input is a sequence of lines, one per `fgets` call. Running out of
  lines is `fgets` returning NULL. Printing is a sequence of `Event`s, and
  `Shell.Text` gives the exact characters `printf` writes for each.
- A socket is the sequence of `ReadResult`s it delivers: the count `read`
  returned, the bytes, and whether the following `write` succeeded.
- Bytes are the characters 0 to 255 (`EchoServer.Byte`). `toupper` is the C
  locale's, since the server never calls `setlocale`. How bytes above 127
  reach `toupper` is described under "## Left out".
- A read that fills all 4096 bytes of the buffer loses its last byte: line 69
  overwrites it with the terminator, so it is never echoed. The comment at
  `demo_server.c:65` speaks of reading `sizeof(uinput) - 1` bytes, which
  would lose nothing, but line 66 asks `read` for all 4096. The code and the
  comment disagree; the model follows the code, and
  `EchoServer.ReplyLength` states the loss.

## Model

| member | source | states |
|---|---|---|
| `CStr.UntilNul` | main.c:63 | the string of a buffer is the part before its first NUL: a prefix of the buffer that holds no NUL and is followed by a NUL unless it is the whole buffer |
| `CStr.Strlen` | main.c:31-32 | strlen is the index of the first NUL: a NUL stands there and none before it |
| `CStr.Strcspn` | main.c:63 | strcspn never passes the terminator; no rejected character occurs before its result, and a rejected character stands at its result when it stops before the terminator |
| `CStr.StrEqual` | main.c:68-69 | strcmp returns 0 exactly when the two C strings are equal |
| `Prompt.HostnameBuffer` | main.c:26-28 | after line 27 and gethostname, byte 255 is NUL, the first min(host_len, 254) bytes are the host name, a NUL follows a name shorter than 254, and the bytes gethostname does not reach keep their old contents |
| `Prompt.Hostname` | main.c:26-31 | the host name is at most 255 characters long and holds no NUL; it is the machine's host name when that is shorter than 254 characters, and otherwise agrees with it on the first 254 |
| `Prompt.GetpromptWrites` | main.c:38-42 | getprompt makes name_len + hostname_len + 5 stores, among them `@` at index name_len, `:` at name_len + hostname_len + 1, and the final NUL at name_len + hostname_len + 2 |
| `Prompt.StrcpyWrites` | main.c:38-40 | strcpy as a list of stores: one per character of the string plus its NUL, the NUL stored last right after the string (where each store lands is `Prompt.StrcpyIndices`, what it leaves is `Prompt.StoreStrcpy`) |
| `Prompt.StrcpyIndices` | main.c:38-40 | strcpy stores the string's length plus one bytes, at consecutive indices from its destination |
| `Prompt.Store` | main.c:36-42 | a defined run of stores keeps the buffer's length; a store outside the buffer makes the run undefined (which runs are defined is `Prompt.StoreDefinedIff`) |
| `Prompt.StoreStrcpy` | main.c:38 | strcpy into a buffer with room stores the string and its NUL and leaves every other byte alone |
| `Prompt.StoreDefinedIff` | main.c:36-42 | a batch of stores is defined exactly when every store is inside the buffer |
| `Prompt.PromptWriteIndices` | main.c:38-42 | getprompt makes name_len + hostname_len + 5 stores; all but the last land below name_len + hostname_len + 2, and the last lands at that index |
| `Prompt.AllocAsWritten` | main.c:36 | the size malloc is asked for is smaller than the corrected size; `Prompt.AsWrittenOverflows` shows the store that falls outside it |
| `Prompt.AsWrittenOverflows` | main.c:36-42 | with the size allocated at line 36, getprompt's stores are undefined: the final NUL at line 42 lands exactly one past the end, while every earlier store fits |
| `Prompt.PromptFitsIff` | main.c:36-42 | getprompt's stores fit a buffer exactly when it has at least name_len + hostname_len + 3 bytes |
| `Prompt.CorrectedFits` | main.c:36-42 | with name_len + hostname_len + 3 bytes, and whatever the fresh heap held, the buffer ends up as `name@host:` followed by a NUL |
| `Prompt.StoreNameAndAt` | main.c:38-39 | after strcpy of the name, the `@` overwrites the name's NUL |
| `Prompt.StoreHostAndTail` | main.c:40-42 | copying the host name, then `:` and NUL, completes the prompt after `name@` |
| `Prompt.Getprompt` | main.c:21-45 | a failed malloc returns NULL; otherwise the prompt is `name@host:` for the host name in the buffer, with length name_len + hostname_len + 2 |
| `Prompt.BuildPrompt` | main.c:36-42 | the prompt written into a real array of the corrected size, with every index bounds-checked: it holds `name@host:` with its NUL at index name_len + hostname_len + 2, and strlen of it is name_len + hostname_len + 2 |
| `Shell.Normalize` | main.c:63 | storing NUL at strcspn's index cuts the buffer's string at its first newline: the new string is the old one up to that index and holds no newline |
| `Shell.Line` | main.c:61-63 | the command compared is the longest prefix of what fgets read that holds neither a newline nor a NUL |
| `Shell.LineIsCut` | main.c:63 | storing NUL at strcspn's index leaves exactly the input before its first newline as the buffer's string |
| `Shell.LineIdempotent` | main.c:63 | cutting an already cut line changes nothing |
| `Shell.LineBeforeNewline` | main.c:63 | without an embedded NUL, the line is the input before its first newline, or the whole input when there is no newline |
| `Shell.Classify` | main.c:68-70 | the if-chain picks Halt exactly when the buffer's string is `halt`, and Help exactly when it is `help` |
| `Shell.Dispatch` | main.c:61-70 | a line read by fgets halts exactly when its cut form is `halt`, and asks for help exactly when it is `help` |
| `Shell.BlanksMatter` | main.c:68-70 | ` halt` and `help ` are unrecognised commands |
| `Shell.NewlineIgnored` | main.c:63-68 | `halt` followed by the newline fgets keeps still halts |
| `Shell.Text` | main.c:58-70 | printf writes the prompt followed by one space, the help text followed by a newline, or `Unrecognized command.` with its newline; only the prompt does not end in a newline |
| `Shell.Step` | main.c:56-72 | a running shell shows the prompt, then halts on exactly `halt`, or stays running and prints the help text or the complaint; a halted shell does nothing |
| `Shell.Run` | main.c:56-72 | the Running/Halted machine driven over the lines prints at most two events per line, the prompt first when it starts running; `Shell.HaltedAbsorbing`, `Shell.RunHaltsIff` and `Shell.LoopIsMachine` state its other properties |
| `Shell.HaltedAbsorbing` | main.c:68 | once halted, no further line has any effect or output |
| `Shell.RunHaltsIff` | main.c:56-72 | the machine ends halted exactly when some line is `halt` |
| `Shell.Loop` | main.c:56-72 | the loop consumes at most the given lines and shows the prompt first; it ends with 0 after a halt or with ERR_FGETS after reading every line, printing two events per answered line plus the last prompt |
| `Shell.LoopExit` | main.c:61-68 | the loop returns 0 exactly when some line is `halt`, right after the first such line; otherwise it returns ERR_FGETS |
| `Shell.LoopIsMachine` | main.c:56-72 | main's loop prints what the Running/Halted machine prints on the lines consumed, plus the prompt before the failing fgets |
| `Shell.Main` | main.c:47-78 | a NULL prompt or input buffer exits with ERR_MALLOC before anything is printed or read; otherwise the exit code is 0 exactly when a line is `halt`, and ERR_FGETS exactly when none is; with both allocations in place it is exactly the loop, so `Shell.LoopIsMachine` gives the whole program's output |
| `Shell.Program` | main.c:21-58 | the program fails with ERR_MALLOC exactly when an allocation fails, and otherwise first shows `name@host: ` |
| `EchoServer.ToUpper` | demo_server.c:78 | toupper's result is never lower case; it changes a byte exactly when the byte is a lower-case letter, mapping it to the matching capital |
| `EchoServer.ToUpperIdempotent` | demo_server.c:78 | upper-casing twice is upper-casing once |
| `EchoServer.TerminatorIndex` | demo_server.c:68-71 | for every positive count the terminator is stored inside the 4096-byte buffer: at index r when r < 4096, and at index 4095 otherwise |
| `EchoServer.Respond` | demo_server.c:68-82 | the reply is at most min(r, 4095) bytes and holds no NUL; each of its bytes is the upper-cased request byte; it stops early only at a NUL of the request |
| `EchoServer.ReplyLength` | demo_server.c:66-82 | the reply is at most min(r, 4095) bytes, and it is all r bytes exactly when r < 4096 and the request holds no NUL |
| `EchoServer.UpperPrefix` | demo_server.c:78 | after the loop, each of the first r bytes is its upper-cased self and every later byte is unchanged |
| `EchoServer.Handle` | demo_server.c:66-82 | one request leaves the terminator in place and the request's other bytes upper-cased; bytes past the request are unchanged; the reply is Respond of the request, whatever earlier requests left in the buffer |
| `EchoServer.UpperUntilNul` | demo_server.c:78-82 | upper-casing and cutting at the first NUL commute |
| `EchoServer.UpperLoop` | demo_server.c:78 | the loop upper-cases the first r bytes and leaves every byte from r on unchanged, so it yields the same buffer as `EchoServer.UpperPrefix` |
| `EchoServer.StrlenLoop` | demo_server.c:82 | the strlen loop stops at the first NUL and returns exactly `CStr.Strlen` of the buffer |
| `EchoServer.HandleRead` | demo_server.c:66-85 | the request handled step by step writes back exactly Respond of the request and leaves the same buffer as `EchoServer.Handle`: the terminator in place and the later bytes unchanged |
| `EchoServer.Serve` | demo_server.c:66-86 | a connection stays open exactly when every read delivered data and every write succeeded; otherwise it ends before answering all reads, and never with more replies than reads |
| `EchoServer.ServeAnswers` | demo_server.c:66-88 | on one connection, every read with a positive count is answered in order with Respond of its bytes. This lasts until a read returns 0 or less (the socket is then closed) or a write fails; with neither, every read is answered |

## Left out

- The foreign calls `getpwuid`, `sc_getuid` and `gethostname` (`syscall.h`) are not modelled: their results are parameters. A NULL from `getpwuid`, which line 23 dereferences, is not modelled.
- The shell's output is a sequence of events, not a file stream. `printf` buffering and the characters written for `perror` are not modelled.
- Only the lines handed to the loop are modelled. `fgets` splitting a line longer than 4095 characters across calls is not.
- `rewind(stdin)` at line 62 is not modelled. Standard input is modelled as a terminal or a pipe, where it has no effect. When stdin is a regular file (`seehell < cmds`), line 62 seeks back to offset 0, so every later `fgets` returns the first line again. The shell then loops forever unless that first line is `halt`. The ERR_FGETS halves of `Shell.Main` and `Shell.LoopExit` describe the terminal and pipe case only.
- Freeing the buffers at `main.c:75-76` is memory management, not modelled.
- `hostname_len` and `name_len` are C `int`s. The model uses unbounded lengths, since host names are at most 255 characters and user names are short.
- `EchoServer.ToUpper`: `uinput` is a plain `char` array (`demo_server.c:24`), and `char` is signed on the usual Linux targets, so bytes 0x80-0xFF reach `toupper` at line 78 as negative values (0xFF as `EOF`). ISO C leaves that undefined. The model takes the glibc behaviour, which returns such values unchanged.
- The server's log lines (`printf` at `demo_server.c:74` and `:81`) are not modelled. Only what is written back to the client is.
- The server's socket setup (`demo_server.c:28-63`), the outer accept loop and `close(s)` are not modelled. They are operating-system I/O.
- A `write` that sends only part of the reply is not modelled. A write either sends the whole reply or fails.
- `demo_client.c` is not part of this model. It is socket and `select` plumbing, and its newline cutting repeats `main.c:63`.
- `main.c` reads one line at a time and recognises only `halt` and `help`. It has no command tokenizer or pipeline executor, so the model has none.
- `Prompt.Store`: its own contract states only the buffer length. Which stores are defined is stated by `Prompt.StoreDefinedIff`, and their effect by `Prompt.StoreStrcpy` and `Prompt.CorrectedFits`.

## Findings

| source | as written | input that shows it | evidently intended | confidence | as-written member | corrected member |
|---|---|---|---|---|---|---|
| main.c:36-42 | allocates `hostname_len + name_len + 3 - 1` bytes, then stores the terminating NUL at index `name_len + hostname_len + 2`, one byte past the end | any user name and host name, e.g. `root` on host `box`: 9 bytes allocated, NUL stored at index 9 | allocate `hostname_len + name_len + 3` bytes, room for `@`, `:` and the NUL | high, not executed | `Prompt.AsWrittenOverflows` | `Prompt.CorrectedFits` |

The rest of the model uses the corrected allocation: `Prompt.Getprompt`, `Prompt.BuildPrompt` and `Shell.Program`.
