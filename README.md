# minemu process control: exec interception and bootstrap decisions

A Dafny model of the process-control layer of minemu, a dynamic binary
instrumentation engine for 32-bit x86 Linux. It covers two pieces of
sequential decision logic:

- **the exec path** (`src/exec.c`): the binary-format dispatcher, which
  tries the ELF loader and falls back on the script loader, in a probe form
  (`can_load_binary`) and a load form (`load_binary`); and `user_execve`,
  the guest-visible replacement for `execve`. It has a validation phase
  with no side effects (a size guard against the 65600-slot static buffer
  `exec_argv`, then a loadability probe). After that comes a committed
  phase: it takes `argv_lock` and fills `exec_argv` with the guest's
  `argv[0]`, the engine's injected options and a copy of the guest argv
  with its NULL terminator. Then it re-executes the engine through
  `/proc/self/exe`.
- **the bootstrap** (`minemu_main` in `src/minemu.c`):
  - the personality test that triggers a one-time self-relaunch with
    address-space randomisation disabled;
  - the choice of `progname`;
  - the `PWD`/`PATH` search, with its sticky `-EACCES`;
  - the visible process name;
  - the patching of the auxiliary vector.

Modules: `Wrappers` (an `Option` type standing for a C pointer that may be
NULL), `Exec` (`exec.dfy`) and `Minemu` (`minemu.dfy`).

How state is modelled:
- The loaders (`can_load_elf`, `can_load_script`, `load_elf`,
  `load_script`) are oracles. They are the function-valued fields of
  `Exec.Loaders`. Every dispatch returns its result code together with the
  list of loader entry points it called, so "the script probe is not
  consulted" can be stated.
- `exec_argv` and `argv_lock` are the fields `slots` (an array of 65600
  `char *` slots, each `Null` or a string) and `locked` of the class
  `Exec.ExecArgv`. `UserExecve` writes them in place.
- The global `progname` and the auxiliary vector are the fields of the
  class `Minemu.Process`. The auxiliary vector is a map from tag to 32-bit
  value, and `set_aux` reassigns it.
- The search loop is a `while` loop over the path string (`SearchPath`). It
  is proved equal to the recursive specification `PathSearch`. The lemmas
  about the search are proved about `PathSearch`.
- Kernel calls that do not return (the relaunch `execve`, the real exec in
  `user_execve`, `sys_exit(1)`, `emu_start`) are modelled as terminal
  results: `Exec.Reexec`, `Minemu.Relaunched`, `Minemu.Exited`,
  `Minemu.Started`.

Notes on what the code does, which the model follows:
- `load_binary` does not re-run the probes before loading. It calls
  `load_elf` directly and falls back on `load_script` whenever `load_elf`
  returns nonzero (src/exec.c:41-49).
- The size guard rejects only when `count + options + 2` is strictly
  greater than the 65600 slots. A request that fills the buffer exactly is
  accepted (src/exec.c:58).
- `user_execve` returns any nonzero probe result as is, positive values
  included, not only negative ones (src/exec.c:67-69).
- The relaunch uses `sys_execve`, not `sys_execve_or_die`. If that exec
  returns, bootstrap carries on without relaunching (src/minemu.c:47-53).
  `MinemuMain` takes this as the parameter `relaunchReturns`.
- The `PWD` value is also split at `':'`, like `PATH` (src/minemu.c:91-123).
- With an empty guest argv, `exec_argv[0] = argv[0]` stores the guest's NULL terminator in slot 0 (src/exec.c:77). The vector the kernel sees is then empty, and the injected options in the later slots are never read.

## Model

| member | source | states |
|---|---|---|
| `Exec.CanLoadBinary` | src/exec.c:30-39 | the ELF probe is asked first; if it returns 0 the result is 0 and the script probe is never called; otherwise the result is exactly the script probe's; no load routine is called; the result is 0 iff one of the probes accepts |
| `Exec.LoadBinary` | src/exec.c:41-49 | `load_elf` is called first; if it returns 0 the result is 0 and `load_script` is never called; otherwise the result is `load_script`'s, unchanged; no probe is called |
| `Exec.LoadAgreesWithProbe` | src/exec.c:30-49 | if `load_elf` succeeds (returns 0) only where its probe accepts, and `load_script` gives a non-negative result only where its probe accepts, then a non-negative `load_binary` result, which `minemu_main` treats as loaded (src/minemu.c:126), implies `can_load_binary` accepts |
| `Exec.CArgv` | src/exec.c:54 | the guest's `char *argv[]`: its strings in order, followed by one NULL |
| `Exec.ExecArgvFor` | src/exec.c:77-80 | layout of the rebuilt vector: slot 0 is the guest's `argv[0]`, slots 1..k are the k options, then the guest argv (`argv[0]` again first) and a NULL, for 1 + k + count + 1 slots in all |
| `Exec.EmptyArgvHidesOptions` | src/exec.c:77-80 | with an empty guest argv, slot 0 is NULL, so the vector ends before the options, which still occupy slots 1..k |
| `Exec.ValidateExec` | src/exec.c:57-69 | oversized requests (`count + k + 2 > 65600`) give -E2BIG without consulting any loader; otherwise the result is `can_load_binary`'s; an accepted request fits the 65600 slots |
| `Exec.ExecArgv.constructor` | src/exec.c:51-52 | the static buffer starts with every slot NULL and the lock free |
| `Exec.ExecArgv.OptionArgsSetup` | src/exec.c:78-79 | the options land in the k slots from the given index on; it returns the index after them; no other slot changes |
| `Exec.ExecArgv.CopyArgv` | src/exec.c:80 | the count+1 entries of the guest argv, NULL included, are copied in order from the given index; no other slot changes |
| `Exec.ExecArgv.UserExecve` | src/exec.c:54-83 | returns an error exactly when validation fails, and then with validation's code, the lock untouched and every slot unchanged; otherwise takes the lock, leaves `ExecArgvFor(argv, optionArgs(filename))` (the options the encoder builds from the target filename) in the leading slots and nothing else changed, and execs `/proc/self/exe` with that vector and the original `envp` |
| `Minemu.RelaunchPersonality` | src/minemu.c:44-51 | a relaunch is requested exactly when `ADDR_NO_RANDOMIZE` is clear; the new personality has it set and agrees with the old one on every other bit |
| `Minemu.RelaunchOnce` | src/minemu.c:47-51 | the personality set by a relaunch asks for no further relaunch |
| `Minemu.ChooseProgname` | src/minemu.c:57-58 | a set `progname` is kept; an unset one becomes `argv[0]` exactly when `argv[0]` starts with `'/'` |
| `Minemu.Find` | src/minemu.c:100 | `strchr`: None exactly when the character is absent, otherwise the index of its first occurrence |
| `Minemu.SearchVar` | src/minemu.c:91-94 | the search uses `PWD` exactly when `argv[0]` contains a `'/'`, and `PATH` exactly when it does not |
| `Minemu.Segments` | src/minemu.c:99-108 | splitting the search path at `':'` gives at least one segment, and no segment contains `':'` |
| `Minemu.SegmentsCons` | src/minemu.c:100-108 | a directory with no `':'` followed by a `':'` is the first segment, and the rest of the path gives the remaining segments |
| `Minemu.SegmentsCount` | src/minemu.c:97-122 | the number of segments is the number of `':'` plus one |
| `Minemu.SegmentsJoin` | src/minemu.c:99-108 | joining the segments with `':'` gives the search path back |
| `Minemu.CandidatesOfPath` | src/minemu.c:110-116 | one candidate per segment, in order; each one is the segment, then `"/"`, then `argv[0]` (so an empty segment gives `"/" + argv[0]`) |
| `Minemu.CandidatesStep` | src/minemu.c:100-108 | the first candidate comes from the text before the first `':'` (or the whole path), and the rest come from the text after it |
| `Minemu.Sticky` | src/minemu.c:119-120 | the new `ret` is non-negative exactly when the latest load succeeded; a failing load replaces it unless the old value is -EACCES, which then stays |
| `Minemu.SearchTriesPrefix` | src/minemu.c:97-123 | the loop appends a prefix of the remaining candidates to what was tried, in order; it stops before the end only on success; it changes nothing if it tries nothing, and otherwise `prog.filename` is the last candidate tried |
| `Minemu.PathSearch` | src/minemu.c:89-123 | the candidates tried are a prefix of the search path's candidates, all of them unless a load succeeds; `prog.filename` is the last one tried; with no variable set or nothing tried the result is -ENOENT with no filename |
| `Minemu.SearchStopsAtFirstSuccess` | src/minemu.c:97-123 | when the i-th candidate is the first one to load, the search reports that candidate and its result, and tries only candidates 0..i |
| `Minemu.SearchExhausts` | src/minemu.c:117-123 | when no candidate loads, all of them are tried and the filename is the last one; the result is -EACCES if any candidate gave -EACCES, otherwise the last candidate's error, or -ENOENT when there were no candidates |
| `Minemu.SearchSucceedsIff` | src/minemu.c:97-123 | the search result is non-negative exactly when some candidate loads |
| `Minemu.SearchPath` | src/minemu.c:89-123 | the loop's `ret`, `prog.filename` and the list of filenames handed to the loader are exactly those of `PathSearch` |
| `Minemu.NextCandidate` | src/minemu.c:100-116 | one turn of the loop: the candidate built from the path's first segment, and the rest of the path after the `':'`, or NULL when there is no `':'` |
| `Minemu.ExampleFoundInSecondDirectory` | src/minemu.c:97-123 | search path `A:B:C`, the program loadable in B but not in A: the search loads B's candidate and never tries C's |
| `Minemu.ExamplePermissionDeniedSticks` | src/minemu.c:119-120 | search path `A:B`, -EACCES in A and -ENOENT in B: the result is -EACCES |
| `Minemu.Resolve` | src/minemu.c:80-124 | a set `progname` is loaded once, directly, with no search; otherwise the candidates of the `PWD`/`PATH` search are tried as a prefix, all of them unless one loads, and an unset variable gives -ENOENT with nothing tried |
| `Minemu.ResolvedFilename` | src/minemu.c:80-124 | a non-negative result, whether from `progname` or from the search, names the file whose load gave it |
| `Minemu.ProcessName` | src/minemu.c:134-138 | the process name has no `'/'`; it is a suffix of the filename and is preceded by a `'/'` unless it is the whole filename |
| `Minemu.AuxValue` | src/minemu.c:145-148 | `get_aux`: the tag's value if the vector holds it, 0 otherwise |
| `Minemu.RebaseSysinfo` | src/minemu.c:148-150 | for a page-aligned vDSO, the rebased `AT_SYSINFO` keeps its offset within the page and lies in the vDSO's page |
| `Minemu.PatchedAux` | src/minemu.c:145-150 | `AT_HWCAP` becomes old & mask; `AT_SYSINFO_EHDR` becomes the vDSO; `AT_SYSINFO` is rebased if nonzero and left alone if zero; no other entry changes |
| `Minemu.Process.SetAux` | src/minemu.c:145-150 | `set_aux` gives the tag the new value and changes nothing else |
| `Minemu.Process.PatchAux` | src/minemu.c:145-150 | the three `set_aux` calls leave the auxiliary vector equal to `PatchedAux` of the old one |
| `Minemu.Process.MinemuMain` | src/minemu.c:41-159 | if a relaunch is due and its exec does not return, it re-executes `/proc/self/exe` with the original argv and envp, touching nothing. Otherwise it updates `progname`, then exits with status 1, leaving the aux vector unpatched, exactly when resolution fails, and otherwise starts the engine on the resolved file with the process name taken from it and the aux vector patched |

## Left out

- `emu/syscalls.h`: it declares the raw syscall stubs `syscall0`..`syscall6`, `syscall_emu` and `syscall_intr`, and macros that forward fixed arguments to them. These are assembly entry points with no visible logic, so they are not modelled. The "does not go through if a signal arrived" behaviour of `syscall_intr` is not visible either. The `exit_group` macro at emu/syscalls.h:64-65 passes its argument as the syscall number and no status.
- Kernel effects: `sys_personality`, `sys_execve`, `sys_execve_or_die`, `sys_prctl`, `sys_exit` and `emu_start` appear only as inputs (the queried personality) or terminal results. A failing exec inside `sys_execve_or_die` (which kills the process) is not modelled. Neither is the exit with status 1 when `emu_start` returns (src/minemu.c:155-158).
- Subsystem setup: `init_threads`, `init_minemu_mem`, `init_shield`, `sigwrap_init`, `unblock_signals` and `jit_init` are not modelled, nor are `copy_cmdline`, `stack_bottom` and the `debug` logging. `parse_options` is an input: `MinemuMain` receives the argv it leaves and a `progname` that reflects what it set.
- `getenve` is a lookup in a map from variable name to value, not a scan of `envp`.
- `get_aux`/`set_aux` internals: a tag absent from the vector reads as 0, and `set_aux` on an absent tag adds it. `CPUID_FEATURE_INFO_EDX_MASK` is defined outside the source shown, so it is the parameter `hwcapMask`.
- Loader internals: the four loaders are oracles returning an `int`. What a successful load writes (`entry`, `sp`, auxiliary-vector entries) is not modelled. The descriptor carries only `filename`, `argv` and `envp`.
- Option encoding: the internals of `option_args_setup` and of the 17-byte `maskbuf` are not visible. The code passes the target `filename` to `option_args_setup` (src/exec.c:79). `UserExecve` therefore takes the encoder as the oracle `optionArgs`, from a filename to the option strings written for it, and writes `optionArgs(filename)`. `option_args_count()` takes no argument in the code, and is assumed to equal `|optionArgs(filename)|`.
- `Exec.ExecArgv.UserExecve`: does not model blocking on `argv_lock` when another thread holds it (no concurrency); the lock is a boolean that is set only on the committed path.
- `Exec.ValidateExec`: the sum `count + option_args_count() + 2` is computed on unbounded integers, not as a 32-bit `unsigned long` that could wrap. No real argv reaches 2^32 entries.
- `Minemu.Process.MinemuMain`: the loader is handed `&prog` and the code reads `prog.filename` and `prog.argv` back afterwards (src/minemu.c:85, 117, 133-134). The model passes the descriptor by value and assumes a loader never rewrites `filename` or `argv`.
- `Minemu.Process.MinemuMain`: requires a non-empty argv only where the code reads `argv[0]`, that is when `progname` is unset and no relaunch replaces the process. There an empty argv makes the code read through a NULL `argv[0]` (src/minemu.c:57, 91), which is undefined behaviour, not an error path. With `progname` set, the `&&` at src/minemu.c:57 and the direct load at src/minemu.c:81-86 never read `argv[0]`; the model accepts an empty argv there and passes `FirstArg(argv)`, which nothing consults.
- `Minemu.Process.MinemuMain`: the environment searched by `getenve` is the parameter `environ`, independent of `envp`. In the code both lookups read the same `envp` (src/minemu.c:92, 94), and `envp` is what the loader receives.
- C memory details: the candidate buffer `progname_buf` is a variable-length array whose address stays in `prog.filename` after its block ends (src/minemu.c:111-116, 134). The model keeps the filename as a string value and does not model pointer lifetime. `strncpy`/`strcat` are modelled as sequence concatenation.
- Loader results are `int`s and errno values are Linux's (ENOENT 2, E2BIG 7, EACCES 13). Personality and auxiliary values are 32-bit bit-vectors, the width of `long` on the 32-bit x86 target.
