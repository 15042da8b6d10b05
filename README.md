# environment.d generator and strlcpy, modelled in Dafny

Two pieces of systemd's tree are modelled here.

**klibc's `strlcpy(dst, src, size)`** (`strlcpy.dfy`, module `BoundedCopy`). The
bounded copy walks `src` up to its first NUL and counts every byte. It copies
a byte into `dst` only while one more byte still leaves room for the
terminator. When `size > 0` it stores a NUL after the copied bytes. It returns
the full length of `src`. The method `Strlcpy` is the C loop over two
`array<char>` buffers. It is proved against `AfterCopy`, a function giving the
new contents of `dst` from its old contents, `src` and `size`. Lemmas then
state what that image is: the copied prefix, the terminator, the untouched
tail, truncation visible through the return value, and no dependence on
anything after the source NUL.

**The `environment.d` generator's control flow** (`environment_d_generator.dfy`,
module `EnvironmentDGenerator`):

- `environment_dirs` puts the per-user directory in front of the compiled-in
  system directories.
- `load_and_print` lists the `*.conf` files in those directories. It hands
  each file in turn to `merge_env_file`, keeping the partly updated block
  whatever a merge returns, and returns early only on `-ENOMEM`. It then
  prints every entry, split at its first `=`, with the value quoted.
- `main` refuses arguments and maps the result to an exit status.

The collaborators whose code is not part of this model are inputs, bundled in
`Collaborators`:

- `strv_split_nulstr`, `sd_path_home` and `strv_extend_front` appear as the
  values they returned.
- `conf_files_list_strv`, `merge_env_file` and `shell_maybe_quote` appear as
  functions, because their arguments are computed by the generator.

The loops are the methods `MergeLoop` and `PrintLoop`. They are proved equal
to the recursive functions `MergeFiles` and `Emit`, and `LoadAndPrint` is
proved equal to `LoadAndPrintSpec`, which composes the steps. The reference
`Replay` says "merge every file in order, ignoring return codes". `StepCode`
gives the code of the `j`-th merge call. `MergePolicy` ties the loop to both.

`CString.IndexOf` (`cstring.dfy`) is the first-occurrence scan shared by both
parts. It is `strlen` for NUL and `strchr` for `=`.

An unconfigured per-user path gets no special case. `environment_dirs`
returns every negative code of `sd_path_home` unchanged, so that case fails
the run like any other lookup failure.

## Model

| member | source | states |
|---|---|---|
| CString.IndexOf | klibc/klibc/strlcpy.c:15-20 | the scan stops at the first occurrence: the result holds the character and no earlier position does |
| CString.IndexOfUnique | src/environment-d-generator/environment-d-generator.c:65 | any position holding the character with none before it is the one the scan finds |
| CString.IndexOfLooksNoFurther | klibc/klibc/strlcpy.c:15 | the scan's result depends only on the characters up to and including the first occurrence |
| BoundedCopy.Copied | klibc/klibc/strlcpy.c:16-17 | the number of bytes copied never exceeds the source length and is 0 when `size == 0`; when `size > 0` it stays below `size` and is the whole source or `size - 1` |
| BoundedCopy.AfterCopyContents | klibc/klibc/strlcpy.c:15-23 | `size == 0` leaves `dst` unchanged; otherwise `dst[0..n)` is `src[0..n)` with `n = min(len, size-1)`, `dst[n]` is NUL and every later byte, in particular every byte from `size` on, is unchanged |
| BoundedCopy.AfterCopyIsCString | klibc/klibc/strlcpy.c:22-23 | when `size > 0` the destination is a C string of length `n` equal to the source's first `n` bytes |
| BoundedCopy.TruncationIsVisible | klibc/klibc/strlcpy.c:16-24 | with `size > 0`, fewer bytes than the source length were copied exactly when the result is `>= size`; the whole string fits, terminated, exactly when the result is `< size` |
| BoundedCopy.DependsOnlyOnString | klibc/klibc/strlcpy.c:12-15 | two sources that agree up to and including their first NUL give the same result and the same destination |
| BoundedCopy.Strlcpy | klibc/klibc/strlcpy.c:8-25 | the loop returns the source length, leaves `src` unchanged and leaves `dst` equal to `AfterCopy` of its old contents; the invariant keeps the write cursor at `min(bytes, size-1)` |
| EnvironmentDGenerator.EnvironmentDirs | src/environment-d-generator/environment-d-generator.c:17-37 | a failed split gives `-ENOMEM`; a failing `sd_path_home` or `strv_extend_front` code is returned unchanged; on success the list is the user directory followed by the system directories in their order |
| EnvironmentDGenerator.MergeFiles | src/environment-d-generator/environment-d-generator.c:55-59 | the loop returns 0 or `-ENOMEM`; the files merged are a prefix of the list, all of it on success |
| EnvironmentDGenerator.MergeKeepsAssignments | src/environment-d-generator/environment-d-generator.c:55-59 | when `merge_env_file` keeps `NAME=VALUE` C-string entries, so does the whole merge loop, which is what the `assert(t)` at line 66 relies on |
| EnvironmentDGenerator.MergePolicy | src/environment-d-generator/environment-d-generator.c:52-59 | the loop succeeds exactly when no merge call returns `-ENOMEM`, and then the block is every file merged in list order; otherwise the last file handed over is the first whose merge returned `-ENOMEM` and no later file is merged |
| EnvironmentDGenerator.MergeLoop | src/environment-d-generator/environment-d-generator.c:55-59 | the `STRV_FOREACH` over files yields the block, code and sequence of merged files that `MergeFiles` gives |
| EnvironmentDGenerator.SplitAssignment | src/environment-d-generator/environment-d-generator.c:65-72 | the name and the value together are one byte shorter than the entry, and that byte, right after the name, is the `=` |
| EnvironmentDGenerator.SplitJoins | src/environment-d-generator/environment-d-generator.c:65-72 | the entry is the name, `=`, then the value, and the name holds no `=` |
| EnvironmentDGenerator.SplitUnique | src/environment-d-generator/environment-d-generator.c:65-72 | every decomposition `name=value` whose name has no `=` is the split at the first `=` |
| EnvironmentDGenerator.Render | src/environment-d-generator/environment-d-generator.c:72 | the text of one printed line: the name, `=`, the quoted value, then a newline |
| EnvironmentDGenerator.RenderSplitsBack | src/environment-d-generator/environment-d-generator.c:72 | a printed line, read back at its first `=`, gives the entry's name and the quoted value |
| EnvironmentDGenerator.Emit | src/environment-d-generator/environment-d-generator.c:61-73 | the print loop prints at most one line per entry and returns 0 or `-ENOMEM` |
| EnvironmentDGenerator.EmitOutput | src/environment-d-generator/environment-d-generator.c:61-73 | from entry `k` on, line `i` is entry `k + i`'s name before the first `=` and the quoter's output, on that entry's call, for the value after it; success exactly when every entry was printed; otherwise the quoter returned NULL for the next entry and the earlier lines stay printed |
| EnvironmentDGenerator.QuoteFailsOnLaterCall | src/environment-d-generator/environment-d-generator.c:68-70 | a quoter that succeeds on the first call and returns NULL on the second ends the run after one printed line, even though both entries have the same value |
| EnvironmentDGenerator.PrintLoop | src/environment-d-generator/environment-d-generator.c:61-75 | the `STRV_FOREACH` over entries prints the lines and returns the code that `Emit` gives |
| EnvironmentDGenerator.SetupFailuresMergeNothing | src/environment-d-generator/environment-d-generator.c:44-50 | a failure of `environment_dirs` or `conf_files_list_strv` is returned as is, with nothing merged or printed; the files are listed from the user directory followed by the system ones |
| EnvironmentDGenerator.LoadAndPrintOutcome | src/environment-d-generator/environment-d-generator.c:48-75 | once files are listed: they are merged as a prefix in list order; any `-ENOMEM` from a merge ends the run with `-ENOMEM` and prints nothing; otherwise every file is merged, line `i` is entry `i` of the merged block, its name and its quoted value, and the run succeeds exactly when every entry is printed, else the quoter returned NULL for the next entry |
| EnvironmentDGenerator.LoadAndPrint | src/environment-d-generator/environment-d-generator.c:39-76 | the code, the printed lines and the files merged are those of `LoadAndPrintSpec`, which composes `EnvironmentDirs`, the listing, `MergeFiles` and `Emit` |
| EnvironmentDGenerator.ExitStatus | src/environment-d-generator/environment-d-generator.c:93 | the status is `EXIT_SUCCESS` exactly when the code is non-negative, else `EXIT_FAILURE` |
| EnvironmentDGenerator.GeneratorMain | src/environment-d-generator/environment-d-generator.c:78-94 | with `argc > 1` the status is `EXIT_FAILURE` and nothing is merged or printed; otherwise the output is load_and_print's and the status is success exactly when its code is non-negative |

## Left out

- The internals of `strv_split_nulstr`, `sd_path_home`, `strv_extend_front`, `conf_files_list_strv`, `merge_env_file` and `shell_maybe_quote` are not part of this model. They are inputs. Shadowing, `KEY=VALUE` parsing, upsert order and quoting rules are not modelled.
- The compiled-in `CONF_PATHS_NULSTR("environment.d")` list is an arbitrary input sequence.
- Filesystem access and `printf` are not modelled. The printed output is the sequence of `Line` values, and `Render` gives the text of one line.
- Logging is not modelled: `log_parse_environment`, `log_open`, `log_error` and `log_error_errno`. `log_oom` is modelled only by the `-ENOMEM` it returns.
- Memory ownership is not modelled: the `_cleanup_*_` attributes, `TAKE_PTR`, freeing. An allocation failure is an `-ENOMEM` code or a NULL result supplied as input.
- `assert(t)` in the print loop is not modelled as an abort. The model instead requires `merge_env_file` to keep every entry a C string (no NUL inside) of the form `NAME=VALUE` (`KeepsAssignments`), so the assertion always holds and the `=` found is the one `strchr` finds.
- EnvironmentDGenerator.PrintLoop: does not model the cast of the name length to `int` for the `%.*s` precision. A length that does not fit in `int` is converted in an implementation-defined way. With GCC or Clang on 64-bit Linux it is reduced modulo 2^32. A length in [2^31, 2^32), or a matching band above, gives a negative precision, and `printf` then prints the whole entry. Any other longer length prints only the first (length mod 2^32) bytes of the name. `Render` has no width limit.
- `shell_maybe_quote` is a function of the entry index and the value (`Quoter`), so each call may fail independently. `merge_env_file` is a function of the block and the path. Each listed file is passed to it once, so its calls can also fail independently as long as the listing holds no path twice.
- BoundedCopy.Strlcpy: requires `dst` and `src` to be distinct arrays. Overlapping buffers, and C pointer arithmetic beyond the two buffers, are not modelled. `size <= dst.Length` is the C requirement that `dst` has room for `size` bytes.
- `size_t` wrap-around is not modelled, because every count is bounded by a buffer length. Bytes are Dafny `char`s, and `'\0'` is the terminator.
