# pam-u2f configuration ingestion, in Dafny

This project models `cfg.c` of the pam-u2f PAM module in Dafny: the code that fills the module's option record `cfg_t` from two sources. One source is the arguments the PAM stack passes. The other is a configuration file that the module opens only after walking its path safely.

The model follows the four pieces of `cfg.c`:

| module | file | models |
|---|---|---|
| `CString` | cstring.dfy | the C library calls used: `isspace`, `strcspn`/`strchr`, `strcmp`/`strncmp` against literals, `strtok_r` with one delimiter, the C string of a NUL-terminated buffer, `%u`/`%d` of `sscanf` |
| `Normalizer` | normalizer.dfy | `ltrim`, `rtrim`, `pack` as functions on sequences, and what they produce |
| `LineBuffer` | line_buffer.dfy | the same three functions, in place on a character buffer holding NUL-terminated strings, and `strtok_r` as the loop of `cfg_load_buffer` uses it |
| `Dispatch` | dispatch.dfy | the option record as a value, and the dispatch chain of `cfg_load_arg` / `cfg_load_arg_debug` |
| `SafeOpen` | safe_open.dfy | `open_safely` over a file system given as a map |
| `Reader` | reader.dfy | `slurp` against a `read` oracle |
| `Config` | config.dfy | `cfg_t` as a class; `cfg_reset`, `cfg_load_arg_debug`, `cfg_load_arg`, `cfg_load_buffer`, `cfg_load_defaults`, `cfg_init`, `cfg_free` as methods on it |
| `Pam`, `Wrappers` | pam.dfy, wrappers.dfy | the PAM return codes used; `Option` |

The code that changes state is imperative Dafny, in the same form as the C:
- `pack` and `rtrim` write NULs and `memmove` inside an `array<char>`.
- `slurp` loops over `read` calls into a fresh array.
- `open_safely` loops over path components.
- `cfg_load_buffer` and `cfg_init` loop over lines and arguments, updating the fields of a `Cfg` object.

Each method is proved against a function that states the result on values:
- `Packed(line)` for `pack`;
- `SlurpResult` for `slurp`;
- `Resolve` for `open_safely`;
- `Replay` for `cfg_load_buffer`;
- `Defaulted` for `cfg_load_defaults`;
- `Initialized` for `cfg_init`.

Those functions carry the lemmas that state what `cfg.c` promises.

Where the code and its comments disagree, the model follows the code:
- **`pack` and NULL.** The comment above `pack` says it returns NULL for invalid lines. No path of `pack` returns NULL, so its result is always a string, and the `!arg` test of `cfg_load_buffer` (cfg.c:248) can never fire.
- **Return codes.** Errors are the PAM codes that `cfg.c` returns: `PAM_SERVICE_ERR`, `PAM_BUF_ERR` and `PAM_SYSTEM_ERR`, not kinds of error of the model's own. An unsafe path, a file over the size cap and a missing file named by `conf=` all give `PAM_SERVICE_ERR`.

## Model

| member | source | states |
|---|---|---|
| CString.Find | cfg.c:216-219 | `strcspn`/`strchr`: the index of the first occurrence, or the length when there is none; no earlier character matches |
| CString.CStr | cfg.c:94-95 | the C string of a buffer is a NUL-free prefix of it, followed in the buffer by a NUL when shorter |
| CString.Tokens | cfg.c:238-245 | the strings `strtok_r(…, "\n", &saveptr)` returns until it returns NULL, in order: the maximal non-empty runs of characters other than the delimiter |
| CString.TokensWellFormed | cfg.c:238-245 | every token `strtok_r` yields is non-empty and free of the delimiter |
| CString.TokensConcat | cfg.c:238-245 | the tokens, concatenated, are the input with every delimiter removed: splitting loses only delimiters |
| CString.TokensJoin | cfg.c:238-245 | round trip: the tokens of non-empty, delimiter-free strings joined by the delimiter are those strings |
| CString.TokensSkip | cfg.c:238-245 | delimiters at the front, and so empty lines, yield no token |
| CString.TokensFirst | cfg.c:238-245 | on a string starting with a non-delimiter, the first token is its longest delimiter-free prefix, and the other tokens are those of the text after the delimiter that ends it; without a delimiter it is the only token |
| CString.TokensNonEmpty | cfg.c:123 | a string that does not end with the delimiter has a token, so a well-shaped path has a first component |
| CString.TokensSingle | cfg.c:238-245 | a non-empty string without the delimiter is exactly one token |
| CString.ScanUnsigned | cfg.c:26 | `sscanf(…, "%u", …) == 1`: after optional white space and an optional `+`, a non-empty run of digits, read as its decimal value; no digit is no conversion |
| CString.ScanSigned | cfg.c:44-48 | `sscanf(…, "%d", …) == 1`: after optional white space and an optional sign, a non-empty run of digits, negated after `-`; no digit is no conversion |
| CString.ScanUnsignedDecimal | cfg.c:26 | `%u` reads back the decimal numeral of any natural number, whatever non-digit follows it |
| CString.ScanSignedDecimal | cfg.c:44-48 | `%d` reads back a non-negative numeral |
| CString.ScanSignedNegative | cfg.c:44-48 | `%d` reads `-` and a numeral as the negated number |
| Normalizer.LeadingSpaces | cfg.c:186-190 | the count `ltrim` skips: every character before it is white space, the one at it is not |
| Normalizer.TrailingStart | cfg.c:192-201 | where `rtrim` stops: every character from it on is white space, the one before it is not |
| Normalizer.LeadingIs | cfg.c:186-190 | the count of leading white space is the unique such count |
| Normalizer.TrailingIs | cfg.c:192-201 | the start of the trailing white space is the unique such position |
| Normalizer.TrimCommutes | cfg.c:224 | `ltrim(rtrim(v))` is the same text as trimming the left side first |
| Normalizer.TrimIsTrimmed | cfg.c:186-201 | a trimmed text has white space at neither end, is no longer than its input, and holds only characters of it |
| Normalizer.TrimOfTrimmed | cfg.c:186-201 | trimming a trimmed text changes nothing |
| Normalizer.Packed | cfg.c:212-233 | what `pack` leaves of a line: the text before its first `#` with its leading blanks dropped, then without `=` right-trimmed, with `=` the right-trimmed key before the first `=`, `=`, and the trimmed value after it |
| Normalizer.PackedSplit | cfg.c:212-233 | `pack` of a line, with `c` the text before its first `#`: the trimmed `c` when `c` has no `=`; otherwise the trimmed key before the first `=`, then `=`, then the trimmed value after it |
| Normalizer.PackedHasNoComment | cfg.c:216 | a packed line holds no `#`: everything from the first `#` on is dropped |
| Normalizer.PackedNotLonger | cfg.c:216-232 | the packed line is no longer than the text before the comment, which is no longer than the line; a line with a `#` strictly shrinks |
| Normalizer.PackedIsTrimmed | cfg.c:217-228 | a packed line has white space at neither end |
| Normalizer.PackedIdempotent | cfg.c:212-233 | packing a packed line gives it back |
| Normalizer.PackedKeyValue | cfg.c:203-233 | white space anywhere around a key, its `=` and its value, and a trailing comment, leave exactly `key=value` |
| Normalizer.PackedWord | cfg.c:203-233 | white space around a word without `=`, and a trailing comment, leave the word |
| Normalizer.PackedFooBar | cfg.c:207 | `'foo = bar'` packs to `'foo=bar'` |
| Normalizer.PackedBaz | cfg.c:208 | `'baz'` packs to `'baz'` |
| Normalizer.PackedBazComment | cfg.c:209 | `'baz # etc'` packs to `'baz'` |
| Normalizer.PackedOnlyComment | cfg.c:216-221 | any line of blanks followed by a comment packs to the empty string |
| LineBuffer.StrAtCStr | cfg.c:94-95 | a C string found at an offset of the buffer is what `CStr` reads from that offset: the in-place view and the value view of a NUL-terminated buffer agree |
| LineBuffer.StrLen | cfg.c:195 | `strlen` of the C string `p` in the buffer is the length of `p` |
| LineBuffer.Span | cfg.c:216 | `strcspn` over the C string `p` in the buffer is `Find(p, c)` |
| LineBuffer.LTrimAt | cfg.c:186-190 | `ltrim` advances past exactly `LeadingSpaces(p)` characters |
| LineBuffer.RTrimAt | cfg.c:192-201 | `rtrim` writes NULs over the trailing white space exactly, leaving the C string `RTrim(p)`; every other character is kept |
| LineBuffer.MoveDown | cfg.c:230 | a downward `memmove`: the destination range holds the old source range, the rest of the buffer is kept |
| LineBuffer.SkipDelims | cfg.c:238 | the run of delimiters `strtok_r` skips: all delimiters, followed by a non-delimiter or the end |
| LineBuffer.NextToken | cfg.c:238-245 | `strtok_r`: a token exists exactly when the string has one; the token is the C string at its start, the first of the tokens of the string, and the rest, pinned past it, holds all the others; only the delimiter after the token is overwritten |
| LineBuffer.TrimValue | cfg.c:224 | `ltrim(rtrim(v))` leaves the trimmed value as a C string inside the old one |
| LineBuffer.TrimKey | cfg.c:226-228 | the key is right-trimmed and followed by `=` |
| LineBuffer.CutPair | cfg.c:223-228 | the `=` is cut, the value trimmed and the key right-trimmed with `=` after it, all inside the line |
| LineBuffer.ShiftDown | cfg.c:230 | `memmove(s + n, v, strlen(v) + 1)` moves the C string down intact |
| LineBuffer.PackPair | cfg.c:223-232 | the `=` branch of `pack` leaves right-trimmed key, `=`, trimmed value as one C string |
| LineBuffer.CutComment | cfg.c:216-217 | the first `#` becomes a NUL and the leading blanks are skipped, inside the line |
| LineBuffer.PackAt | cfg.c:212-233 | `pack` in place: `Packed(line)` is the C string at the returned position, inside the old line; the buffer outside the line is untouched |
| Reader.Returned | cfg.c:81 | a `read` returns -1, or at most what was asked and what is left of the file |
| Reader.Total | cfg.c:78-92 | the loop ends with an offset between where it started and that plus what it had to read, inside the file |
| Reader.ReadCall | cfg.c:81 | the bytes a `read` delivers land at the write position and nothing else in the buffer changes |
| Reader.SlurpResult | cfg.c:67-97 | what `slurp` returns: `PAM_SERVICE_ERR` over the size cap, then `PAM_BUF_ERR` when `malloc` fails, then `PAM_SYSTEM_ERR` when the read loop fails, otherwise the file's bytes the loop read |
| Reader.Slurp | cfg.c:67-97 | `slurp`: its code and bytes are `SlurpResult`; on success a fresh buffer of `to_read + 1` characters holds the bytes read and then a NUL |
| Reader.TotalComplete | cfg.c:78-92 | short reads lose nothing: without faults or empty reads before the end, the loop reads `to_read` bytes or the whole shorter file |
| Reader.SlurpComplete | cfg.c:70-96 | a file within the cap, read without faults, yields its first `to_read` bytes, or all of it when it ends earlier |
| Reader.SlurpBounded | cfg.c:78-94 | whatever the `read` calls do, a successful load holds a prefix of the file of at most `to_read` bytes |
| Reader.SlurpErrors | cfg.c:70-85 | a size over `CFG_MAX_FILE_SIZE` gives `PAM_SERVICE_ERR` first; a failed `malloc` gives `PAM_BUF_ERR`; a fault on the first read, when bytes are wanted, gives `PAM_SYSTEM_ERR` |
| Reader.SlurpFault | cfg.c:78-85 | a fault on any read after full short reads, while bytes are still wanted, gives `PAM_SYSTEM_ERR` |
| Reader.SystemErrIsFault | cfg.c:81-85 | `PAM_SYSTEM_ERR` comes only from a failing read |
| Reader.TotalFault | cfg.c:78-85 | the read loop ends in failure when a read it still needs fails after full short reads |
| Reader.TotalNoneFault | cfg.c:78-85 | the read loop fails only when one of its reads fails |
| SafeOpen.Walk | cfg.c:131-175 | the loop of `open_safely` from component `i`: a missing component is success with no file, a refused `openat` or `fstat` is `PAM_SERVICE_ERR`, a component before the last must pass the directory checks to go on, the last must pass the regular-file checks to be handed out |
| SafeOpen.Resolve | cfg.c:108-184 | `open_safely`: the shape check, then `strdup`, then the root `open`, then the walk over the path's components |
| SafeOpen.OpenSafely | cfg.c:108-184 | `open_safely`: its code and file are `Resolve`; on success `*outsize` is the file's size, or 0 with no file |
| SafeOpen.BadShapeRefused | cfg.c:115-117 | an empty, relative or `/`-terminated path gives `PAM_SERVICE_ERR`, whatever the file system holds |
| SafeOpen.MissingWalk | cfg.c:131-159 | a missing component, past directories that pass, ends the walk with success and no file |
| SafeOpen.UnsafeDirWalk | cfg.c:140-148 | an existing component before the last that fails a directory check, past directories that pass, fails the walk |
| SafeOpen.LastWalk | cfg.c:131-155 | past directories that all pass, the verdict is the one on the last component |
| SafeOpen.FoundWalkSafe | cfg.c:131-175 | a walk that yields a file passed every directory on the way |
| SafeOpen.FoundIff | cfg.c:108-184 | a file is handed out exactly when the path is well shaped, the root opens, every directory passes, and the last component is a safe regular file |
| SafeOpen.MissingIsSuccess | cfg.c:128-159 | a missing ancestor or file, past directories that pass, gives `PAM_SUCCESS` with no file (`*outfd == -1`) |
| SafeOpen.UnsafeAncestorRefused | cfg.c:143-148 | a directory on the way that is not root's (outside a testing build), not a directory or link, or group/world-writable gives `PAM_SERVICE_ERR` |
| SafeOpen.UnsafeFileRefused | cfg.c:165-170 | a last component that is not root's (outside a testing build), not a regular file, or group/world-writable gives `PAM_SERVICE_ERR` |
| Dispatch.Parse | cfg.c:24-64 | the entry of the `cfg_load_arg` chain an argument reaches, tested in the code's order, with the text after its prefix; anything else falls to the debug entries |
| Dispatch.Apply | cfg.c:24-65 | `cfg_load_arg` on the record: the entry `Parse` picks, carried out |
| Dispatch.ApplyDebug | cfg.c:15-22 | `cfg_load_arg_debug` on the record: `debug` and `debug_file=` carried out, every other argument ignored |
| Dispatch.DefaultsAre | cfg.c:289-295 | the reset record: every flag 0, the device cap 0, every string NULL, the three tri-states -1, the default debug sink |
| Dispatch.IgnoredIffUnknown | cfg.c:15-65 | an argument is ignored exactly when it is none of the names and starts with none of the prefixes of the two functions |
| Dispatch.UnknownKeeps | cfg.c:15-65 | an argument matching no entry, the debug ones included, leaves the record unchanged |
| Dispatch.CountUnparsedKeeps | cfg.c:25-26 | `max_devices=` with text `%u` cannot convert leaves the record, device cap included, unchanged |
| Dispatch.CountParsedSets | cfg.c:25-26 | `max_devices=` with a convertible number stores it, and nothing else changes |
| Dispatch.ParsePolicy | cfg.c:43-48 | a tri-state argument reaches its own entry of the chain |
| Dispatch.PolicyScan | cfg.c:43-48 | a tri-state whose text `%d` cannot convert leaves the record unchanged; one that converts stores the number in that tri-state only |
| Dispatch.ParseText | cfg.c:49-62 | each string argument reaches its own entry of the chain |
| Dispatch.ParseAuthFile | cfg.c:49-50 | `authfile=` reaches its entry, with the text after the `=` |
| Dispatch.ParseAuthPendingFile | cfg.c:53-54 | `authpending_file=` reaches its entry |
| Dispatch.ParseOrigin | cfg.c:55-56 | `origin=` reaches its entry |
| Dispatch.ParseAppId | cfg.c:57-58 | `appid=` reaches its entry |
| Dispatch.ParsePrompt | cfg.c:59-60 | `prompt=` reaches its entry |
| Dispatch.ParseCuePrompt | cfg.c:61-62 | `cue_prompt=` reaches its entry |
| Dispatch.TextSets | cfg.c:49-62 | a string argument stores the text after its `=`, and nothing else changes |
| Dispatch.ParseFlag | cfg.c:16-52 | each flag name reaches its own entry, `debug` through the fallback |
| Dispatch.FlagSets | cfg.c:16-52 | a flag name sets that flag to 1, and nothing else changes |
| Dispatch.ApplyFrame | cfg.c:24-65 | one argument changes at most the field it assigns, which then holds the assigned value |
| Dispatch.ApplyIdempotent | cfg.c:24-65 | loading the same argument twice gives the record of loading it once; for `debug_file=` the sink is named by its path (see below) |
| Dispatch.DebugPassAgrees | cfg.c:15-22 | `cfg_load_arg_debug` performs `debug` and `debug_file=` as `cfg_load_arg` does, and ignores every other argument |
| Dispatch.ParseFallsThrough | cfg.c:24-64 | an argument starting with `d` passes every test of `cfg_load_arg` and reaches `cfg_load_arg_debug` |
| Dispatch.UntouchedSurvives | cfg.c:316-321 | a field no argument of a list assigns keeps its value through the list |
| Dispatch.AssignedOverrides | cfg.c:316-321 | a field some argument of a list assigns ends with a value independent of its value before the list |
| Dispatch.ApplyAllAppend | cfg.c:316-321 | loading two lists in turn is loading their concatenation |
| Config.Replay | cfg.c:235-253 | `cfg_load_buffer` on the record: each line in order packed and, unless it packs to nothing, loaded with `cfg_load_arg` |
| Config.ReplayIsApplyAll | cfg.c:235-253 | loading the lines one by one, packed, skipping empty packs, is loading the list of non-empty packed lines in file order |
| Config.FileArgsAppend | cfg.c:238-252 | lines are taken in order: the arguments of two blocks of lines are those of the first, then those of the second |
| Config.FileArgsShape | cfg.c:247-251 | every argument from the file is non-empty, has white space at neither end, holds no `#`, and packs to itself |
| Config.CommentLineSkipped | cfg.c:247-249 | a blank line, or blanks and a comment, yields no argument |
| Config.PackedOfSpaces | cfg.c:247-249 | blanks pack to the empty string |
| Config.FileTextOfLines | cfg.c:238-252 | a text of lines joined by newlines yields the arguments of those lines |
| Config.OthersAre | cfg.c:305-318 | the arguments loaded are exactly those that do not start with `conf=`: `conf=` is never applied as an option |
| Config.ConfPathIsLast | cfg.c:305-307 | the configuration path is the text after the last `conf=` argument |
| Config.NoConfPath | cfg.c:299-310 | without a `conf=` argument no path is named and every argument is loaded |
| Config.Defaulted | cfg.c:255-287 | `cfg_load_defaults`: the chosen path resolved by `open_safely`; its error passed on; no file is success only for the default path; an empty file loads nothing; otherwise the file is read and, on success, loaded |
| Config.Initialized | cfg.c:297-356 | `cfg_init`: the debug pass over the arguments other than `conf=`, `cfg_load_defaults` on the last `conf=` path, then `Finish` |
| Config.Finish | cfg.c:312-356 | the end of `cfg_init`: on success every argument except `conf=` loaded again, on failure the reset record of `cfg_free` |
| Config.Cfg.Reset | cfg.c:289-295 | `cfg_reset`: the record is `Defaults`, with no buffer |
| Config.Cfg.LoadArgDebug | cfg.c:15-22 | `cfg_load_arg_debug` updates the fields as `ApplyDebug` says |
| Config.Cfg.LoadArg | cfg.c:24-42 | `cfg_load_arg` updates the fields as `Apply` says |
| Config.Cfg.LoadSetting | cfg.c:43-50 | the tri-state and `authfile=` entries of the chain |
| Config.Cfg.LoadString | cfg.c:51-64 | `sshformat`, the other string entries, and the fallback to `cfg_load_arg_debug` |
| Config.Cfg.LoadLine | cfg.c:247-251 | one line packed in place and, unless it packs to nothing, loaded; only the line's own characters change |
| Config.Cfg.NextLine | cfg.c:239-251 | one pass of the loop: the next line is pinned before the current one is packed, and stays intact |
| Config.Cfg.LoadBuffer | cfg.c:235-253 | `cfg_load_buffer`: the record becomes `Replay` of the lines of the C string in the buffer |
| Config.Cfg.LoadDefaults | cfg.c:255-287 | `cfg_load_defaults`: the code and record are `Defaulted`; a buffer is kept only on success |
| Config.Cfg.LoadFile | cfg.c:274-286 | the opened non-empty file is read and loaded, or the read's error passed on with the record unchanged |
| Config.Cfg.Init | cfg.c:297-356 | `cfg_init`: the code and record are `Initialized`; on failure no buffer is kept |
| Config.Cfg.FirstPass | cfg.c:305-310 | the first pass picks the last `conf=` path and applies `cfg_load_arg_debug` to every other argument |
| Config.Cfg.SecondPass | cfg.c:316-321 | the second pass applies `cfg_load_arg` to every argument except `conf=`, in order |
| Config.Cfg.Free | cfg.c:358-362 | `cfg_free`: the buffer is released and the record is the reset record again |
| Config.ArgumentsOverrideFile | cfg.c:312-321 | a field some argument sets ends with what the arguments alone give, whatever the file set |
| Config.FileSettingSurvives | cfg.c:312-321 | a field no argument sets keeps what the file gave it |
| Config.DefaultFileMayBeMissing | cfg.c:264-267 | without `conf=`, a missing default file, or a missing directory on its way, makes `cfg_init` succeed with the arguments alone |
| Config.NamedFileMustExist | cfg.c:264-267 | a missing file named by `conf=` fails `cfg_init` with `PAM_SERVICE_ERR` and the reset record |
| Config.RefusedFileFails | cfg.c:260-262 | a file `open_safely` refuses fails `cfg_init` with that code and the reset record |
| Config.FileBetweenArguments | cfg.c:297-321 | a file loaded successfully is applied between the two passes: the debug arguments, then the file's packed lines in order, then every argument except `conf=` |

## Left out

- `cfg.h` is not part of this model. `CFG_MAX_FILE_SIZE` is taken as 4096 and `CFG_DEFAULT_PATH` as `/etc/security/pam_u2f.conf`. `DEFAULT_DEBUG_FILE` is an opaque default sink.
- Logging: `debug_open`, `debug_close` and the `debug_dbg` trace of `cfg_init` (cfg.c:19-20, 324-350) are foreign calls with no checkable result. The sink is a token that names the path it was opened for.
- System calls are parameters, not effects:
  - the file system is a map from component paths to what `openat` and `fstat` report;
  - `read` is an oracle of call outcomes;
  - `strdup` and `malloc` failure are flags.
- Releasing descriptors and memory is not modelled; it has no observable result in the record. This covers `close` and `free` in `open_safely`, `slurp` and `cfg_load_defaults`, and `free` of the buffer in `cfg_free` beyond dropping the reference.
- Races between the checks of `open_safely` and later changes of the file system are not modelled.
- `openat` path resolution is not modelled: `.` and `..` and symbolic-link targets are not resolved. A component is what the map says of its component path. An `errno` other than `ENOENT` appears as a `Denied` entry.
- `flags` of `cfg_init` is only logged by the code, so it is not a parameter of the model.
- The int flags of `cfg_t` are modelled as the set of flags that hold 1, because options only ever set them to 1.
- String options are values, not pointers into `argv` or `defaults_buffer`; the lifetime of those borrowed strings is not modelled.
- Bytes are modelled as `char`. A byte above 0x7f given to `isspace` as a negative `char`, as in `rtrim` (cfg.c:197), is not modelled: `IsSpace` is the C-locale set on unsigned values.
- CString.ScanUnsigned: does not model `%u` accepting a leading `-` or wrapping numbers above `UINT_MAX`, because the model's numbers are unbounded. Such text reads as not converted, or as its exact value.
- CString.ScanSigned: does not model overflow beyond the range of `int`; the value read is exact.
- The model's numbers are unbounded, so the wrap-around of `unsigned` and `size_t` is not modelled.
- Dispatch.ApplyIdempotent: for `debug_file=` it holds only because the model's sink is named by its path. The code closes the current sink and opens the path again (cfg.c:19-20), so a second load replaces one open handle by another.
