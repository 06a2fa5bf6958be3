# Byte-string helpers of wf-lua-tools, modelled in Dafny

This project models the two small C programs of the toolchain's Lua tools:

- `replace(haystack, needle, position)` from the native helper library
  (`src/native.c`). It returns a copy of the string with bytes overwritten,
  starting at a 1-based position. The needle is cut off at the end of the haystack, so
  the result always has the haystack's length.
- `wf-compile-commands-merge OUTPUT INPUT...`
  (`src/cmd/wf-compile-commands-merge.c`). It joins several
  `compile_commands.json` fragments into one JSON array. It writes `[`, then
  the bytes of every input file that can be opened, in argument order, then
  `]\n`. From the last of those files it first drops the trailing run of
  control bytes, spaces and commas. That stray comma would otherwise end
  the array.

Files:

- `bytes.dfy`: `Wrappers.Option`, the `Bytes.byte` type (C's `unsigned char`)
  and `Bytes.CString`, which gives the bytes that `printf("%s", buf)` writes.
- `native.dfy`: module `Native`. `Overwrite` is the reference definition of
  the result. `Replace` follows the C code: it copies the haystack and its
  terminating NUL into a fresh array, clamps the length, and writes the
  needle with a loop. It is proved equal to `Overwrite`.
- `compile_commands_merge.dfy`: module `CompileCommandsMerge`. `MergeSpec`
  is the reference definition of a run: the exit status plus the bytes left
  in the output file. `Merge` follows `main` step by step and is proved equal
  to `MergeSpec`. Each step is its own method, for the proof's sake:
  - `CopyInputs` is the argument loop, with the `buffervalid` deferred flush.
  - `TakeReadable` is one iteration on a file that opened.
  - `LoadFile` grows the buffer, NUL-terminates it and reads the file.
  - `GrowBufferSize` is the `buffersize * 3 / 2` loop.
  - `Realloc` and `ReadItem` stand for `realloc` and `fread`.
  - `FindLastKept` is the backwards trim loop.
  - `PrintTrimmed` is the final NUL store and print.

How the environment is abstracted in the merger:

- `outputArgGiven` stands for `argc >= 2`.
- `outputOpens` says whether `fopen(argv[1], "wb")` succeeds.
- `inputs` has one entry per `argv[2..]`: `None` where `fopen` fails, otherwise
  the file's bytes.
- The output file is the sequence of bytes written to it. It is `None` when
  the file is never opened.

`"%s"` stops at the first NUL byte. The model keeps this through
`CString`. The lemmas `MergeVerbatim` and `MergeEmptyFileFails` then state
the byte-for-byte result for inputs that hold no NUL.

## Model

| member | source | states |
|---|---|---|
| `Native.WindowLength` | src/native.c:17-19 | the number of needle bytes written is at most the needle's length and never runs past the haystack's end; it is the whole needle unless the haystack's end cuts it short |
| `Native.Overwrite` | src/native.c:12-23 | the result has the haystack's length; bytes before the offset and bytes after the written window are the haystack's; the window holds the needle's bytes in order |
| `Native.Replace` | src/native.c:9-26 | for a 1-based position in `1..|haystack|+1`, the copy-then-write procedure returns exactly `Overwrite(haystack, needle, position - 1)`, so writing starts at index `position - 1` |
| `Native.OverwriteDetermined` | src/native.c:12-23 | any string of the haystack's length that keeps the haystack before the offset and after the window, and holds the needle inside the window, is the result of `replace`: the index-wise description leaves nothing open |
| `Native.OverwriteNothing` | src/native.c:17-22 | an empty needle, or a position just past the end, returns the haystack unchanged |
| `Native.OverwriteUnchangedIff` | src/native.c:17-21 | the result equals the haystack if and only if the window already held the needle's bytes that get written |
| `Native.OverwriteRestore` | src/native.c:13-23 | writing back the bytes that were overwritten, at the same position, restores the original haystack |
| `Native.OverwriteIdempotent` | src/native.c:13-23 | replacing twice with the same needle at the same position gives the same result as replacing once |
| `Native.OverwriteTruncatesExample` | src/native.c:17-21 | `replace("abcd", "XYZ", 3)`, which `Replace` proves equal to the overwrite at offset 2, gives `"abXY"`: the needle is cut at the end of the haystack |
| `Bytes.CString` | src/cmd/wf-compile-commands-merge.c:28 | what `"%s"` prints is the longest prefix of the buffer without a NUL; when shorter than the buffer, a NUL follows it |
| `Bytes.CStringTerminated` | src/cmd/wf-compile-commands-merge.c:40 | a buffer that holds a file followed by the NUL stored at `buffer[infsize]` prints as that file, whatever stale bytes follow |
| `Bytes.CStringNoNul` | src/cmd/wf-compile-commands-merge.c:56 | a buffer without NUL bytes prints in full |
| `CompileCommandsMerge.IsTrimByte` | src/cmd/wf-compile-commands-merge.c:53 | the set of bytes the trim loop steps over: every byte up to 32 (control bytes and space) and the comma |
| `CompileCommandsMerge.TrimEnd` | src/cmd/wf-compile-commands-merge.c:50-54 | the trimmed file is a prefix of the file; every byte removed is a control byte, a space or a comma; the kept part is empty or ends in a byte that is none of these, so the removed run is maximal |
| `CompileCommandsMerge.Readable` | src/cmd/wf-compile-commands-merge.c:23-25 | the contents of the inputs that open, in argument order; its contract bounds their number by the number of arguments, and `ReadableMembers` states which contents appear |
| `CompileCommandsMerge.ReadableMembers` | src/cmd/wf-compile-commands-merge.c:23-25 | a file's contents are among the readable files exactly when some argument opens to those contents |
| `CompileCommandsMerge.ReadableAppend` | src/cmd/wf-compile-commands-merge.c:23-25 | the readable files of two argument lists joined are those of the first list followed by those of the second, so the filter keeps argument order |
| `CompileCommandsMerge.ReadableSkipsNone` | src/cmd/wf-compile-commands-merge.c:24-25 | an input that cannot be opened, at any position, adds no readable file |
| `CompileCommandsMerge.Printed` | src/cmd/wf-compile-commands-merge.c:28 | the bytes written by printing each held-back buffer with `%s` in turn; they hold no NUL and are never more than the buffers' bytes |
| `CompileCommandsMerge.FirstEmpty` | src/cmd/wf-compile-commands-merge.c:41-44 | gives the index of the first empty readable file, or the number of files when none is empty |
| `CompileCommandsMerge.Grown` | src/cmd/wf-compile-commands-merge.c:36-37 | the size after `k` steps of `size * 3 / 2`; it never falls below the start, and from a start of at least 2 it grows by at least one byte per step, which is why the growth loop ends |
| `CompileCommandsMerge.GrowBufferSize` | src/cmd/wf-compile-commands-merge.c:35-37 | the growth loop ends with a size that holds the file and is no smaller than before; it is the first size along the `size * 3 / 2` trajectory that is large enough |
| `CompileCommandsMerge.Realloc` | src/cmd/wf-compile-commands-merge.c:38 | the new buffer is fresh, has the requested length and starts with the old buffer's bytes |
| `CompileCommandsMerge.ReadItem` | src/cmd/wf-compile-commands-merge.c:41 | `fread` of one item of the file's size stores the file's bytes at the front of the buffer and returns 1; for a size of 0 it returns 0 and leaves the buffer unchanged |
| `CompileCommandsMerge.LoadFile` | src/cmd/wf-compile-commands-merge.c:32-44 | after loading, the buffer holds the file followed by a NUL; the read reports an item exactly when the file is non-empty; a file that fits leaves the same buffer, the same size and every byte after the NUL as they were; otherwise the size is the first one along the `size * 3 / 2` trajectory that holds the file |
| `CompileCommandsMerge.TakeReadable` | src/cmd/wf-compile-commands-merge.c:27-47 | a step on a readable file first writes the file held back from the previous step, so the output covers every earlier readable file, and then holds the new file in the buffer; the buffer size is the first large-enough size along the growth trajectory, and a file that fits keeps the buffer and its size |
| `CompileCommandsMerge.CopyInputs` | src/cmd/wf-compile-commands-merge.c:16-48 | the loop stops early exactly when a readable file is empty, with `[` and the earlier readable files written; otherwise it writes `[` and all readable files but the last, and holds the last in the buffer |
| `CompileCommandsMerge.FindLastKept` | src/cmd/wf-compile-commands-merge.c:52-53 | for a file that holds a byte outside the trim set, the backwards loop stops inside the buffer, at the last byte that the trimmed file keeps |
| `CompileCommandsMerge.PrintTrimmed` | src/cmd/wf-compile-commands-merge.c:50-56 | printing writes the trimmed last file; afterwards the buffer holds the trimmed file, then a NUL, then the bytes it held before |
| `CompileCommandsMerge.MergeSpec` | src/cmd/wf-compile-commands-merge.c:10-63 | the reference definition of a whole run, exit status and output-file bytes; its properties are stated by `MergeOutcome`, `MergeNothingReadable`, `MergeSkipsUnreadable`, `MergeVerbatim` and `MergeEmptyFileFails`, and `Merge` is proved equal to it |
| `CompileCommandsMerge.TrimSafe` | src/cmd/wf-compile-commands-merge.c:50-54 | the runs on which the trim loop stays inside the buffer: when no readable file is empty and there is one, the last holds a byte outside the trim set |
| `CompileCommandsMerge.Merge` | src/cmd/wf-compile-commands-merge.c:10-63 | every run of `main` whose behaviour is defined gives exactly the exit status and output-file bytes of `MergeSpec`; only a run that opens its output and reaches the trim needs `TrimSafe` |
| `CompileCommandsMerge.MergeOutcome` | src/cmd/wf-compile-commands-merge.c:11-62 | an output file exists exactly when argv[1] is given and opens; its content starts with `[`; the status is 0 or 1; it is 0 exactly when, in addition, no readable input is empty; a status of 0 means the output ends with `]\n`; where `TrimSafe` fails these are facts about the model's convention, not about `main` |
| `CompileCommandsMerge.MergeNothingReadable` | src/cmd/wf-compile-commands-merge.c:16-60 | when no input can be opened, the output is exactly `[]\n` and the status is 0 |
| `CompileCommandsMerge.MergeSkipsUnreadable` | src/cmd/wf-compile-commands-merge.c:24-25 | an input that cannot be opened, wherever it stands, changes neither the result nor the trim precondition |
| `CompileCommandsMerge.MergeVerbatim` | src/cmd/wf-compile-commands-merge.c:23-60 | for NUL-free, non-empty inputs, the output is `[`, then every readable file but the last byte for byte in argument order, then the last file without its trailing trim run, then `]\n`; the bytes between the brackets are the concatenation of all readable files minus a trailing run of trim bytes, and nothing else is dropped; when the last file is all trim bytes this is the model's convention, as `main` is then undefined |
| `CompileCommandsMerge.MergeEmptyFileFails` | src/cmd/wf-compile-commands-merge.c:41-44 | for NUL-free inputs that include an empty readable file, the status is 1 and the output is `[` followed by the readable files before the first empty one |
| `CompileCommandsMerge.TrimEndExample` | src/cmd/wf-compile-commands-merge.c:51-54 | a fragment ending in `},\n` keeps everything up to and including its `}` |

## Left out

- The Lua C-API glue (`luaL_checklstring`, `luaL_checkinteger`, `lua_pushlstring`, `luaL_newlib`, `luaopen_wf_internal_native`). This is foreign binding code. `replace` is modelled on plain byte sequences and an integer position.
- Native.Replace: positions outside `1..|haystack|+1` are excluded by its precondition. Outside that range the C code's `size_t` subtraction and addition wrap around, and the write falls outside the buffer. Within the range no wrap-around can happen.
- Allocation failure of `malloc` and `realloc`. The source does not check for it.
- Resource release. `replace` never frees its copy of the haystack, so every call leaks it. The merger never frees its buffer and never closes the output file, and on the empty-file path it does not close the input file either. Streams are flushed and closed at exit. Memory and file handles are not part of the model.
- Real file I/O in the merger (`fopen`, `fseek`, `ftell`, `fread`, `fclose`, `fprintf` to the file and to `stderr`). The model takes the inputs as given contents, or `None` for an open that fails. It does not model `ftell` failing or a read that comes back short for a non-empty file. The error message on `stderr` is not part of the output.
- Stream buffering. Returning from `main` flushes everything that was written, so the output file is modelled as all bytes written up to the return, including the partial output of a failing run.
- CompileCommandsMerge.Merge: requires, only when the output file opens, that the last readable file, if the run reaches the final trim, holds a byte that is not a control byte, space or comma. The C trim loop has no lower bound. On such a file it reads before the start of the buffer, which is undefined behaviour.
- CompileCommandsMerge.MergeSpec: on inputs where `TrimSafe` fails, its value (status 0, the last file trimmed to nothing) is a convention of the model, not the program's behaviour. `MergeOutcome` and `MergeVerbatim` therefore describe `main` only on inputs where `TrimSafe` holds or the output does not open.
- CompileCommandsMerge.GrowBufferSize: does not model `size_t` wrap-around of `buffersize * 3`. That would need a file of more than `SIZE_MAX / 3` bytes.
- The trim test `*lastc <= 32` depends on whether `char` is signed. Bytes are modelled as unsigned. On a signed-char target, bytes of 0x80 and above would also be trimmed.
- The repository's Lua layout normaliser and linker-script emitter are not part of this model. They are not among the source files modelled here.
