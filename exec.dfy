/**
 * The exec path of the engine (src/exec.c): the two-stage binary-format
 * dispatcher and the guest-visible replacement for execve, which rebuilds
 * an argument vector that re-invokes the engine on its own image.
 *
 * The loaders themselves are oracles: their results are the fields of a
 * `Loaders` value, and every dispatch records which of them it called.
 */
module Exec {

  /** Linux errno value for "argument list too long". */
  const E2BIG := 7

  /** Number of slots of the static `exec_argv` buffer. */
  const ExecArgvSlots := 65536 + 64

  /** The path through which the engine re-executes its own image. */
  const SelfExe := "/proc/self/exe"

  /** One `char *` slot of an argument vector. */
  datatype Arg = Null | Str(s: string)

  /** The parts of an executable descriptor (`elf_prog_t`) the loaders see. */
  datatype Prog = Prog(filename: string, argv: seq<string>, envp: seq<string>)

  /** The four loader entry points; 0 means "can load" or "loaded". */
  datatype Loaders = Loaders(
    canLoadElf: Prog -> int,
    canLoadScript: Prog -> int,
    loadElf: Prog -> int,
    loadScript: Prog -> int)

  datatype LoaderCall = CanLoadElf | CanLoadScript | LoadElf | LoadScript

  /** A dispatch result together with the loader calls made, in order. */
  datatype Dispatch = Dispatch(code: int, calls: seq<LoaderCall>)

  /** `can_load_binary`: ask the ELF probe, fall back on the script probe. */
  function CanLoadBinary(ld: Loaders, p: Prog): (r: Dispatch)
    ensures |r.calls| >= 1 && r.calls[0] == CanLoadElf
    ensures forall c :: c in r.calls ==> c == CanLoadElf || c == CanLoadScript
    ensures CanLoadScript in r.calls <==> ld.canLoadElf(p) != 0
    ensures ld.canLoadElf(p) == 0 ==> r.code == 0
    ensures ld.canLoadElf(p) != 0 ==> r.code == ld.canLoadScript(p)
    ensures r.code == 0 <==> ld.canLoadElf(p) == 0 || ld.canLoadScript(p) == 0
  {
    var err := ld.canLoadElf(p);
    if err != 0 then Dispatch(ld.canLoadScript(p), [CanLoadElf, CanLoadScript])
    else Dispatch(err, [CanLoadElf])
  }

  /** `load_binary`: run the ELF loader, fall back on the script loader. */
  function LoadBinary(ld: Loaders, p: Prog): (r: Dispatch)
    ensures |r.calls| >= 1 && r.calls[0] == LoadElf
    ensures forall c :: c in r.calls ==> c == LoadElf || c == LoadScript
    ensures LoadScript in r.calls <==> ld.loadElf(p) != 0
    ensures ld.loadElf(p) == 0 ==> r.code == 0
    ensures ld.loadElf(p) != 0 ==> r.code == ld.loadScript(p)
    ensures r.code == 0 <==> ld.loadElf(p) == 0 || ld.loadScript(p) == 0
  {
    if ld.loadElf(p) == 0 then Dispatch(0, [LoadElf])
    else Dispatch(ld.loadScript(p), [LoadElf, LoadScript])
  }

  /**
   * When each loader only loads what its own probe admits, the dispatcher
   * never loads a file its probe chain rejected. A load counts as done when
   * its result is non-negative, as `minemu_main` reads it; the ELF loader
   * is taken at its word only on 0, since any other value falls through to
   * the script loader.
   */
  lemma LoadAgreesWithProbe(ld: Loaders, p: Prog)
    requires ld.loadElf(p) == 0 ==> ld.canLoadElf(p) == 0
    requires ld.loadScript(p) >= 0 ==> ld.canLoadScript(p) == 0
    ensures LoadBinary(ld, p).code >= 0 ==> CanLoadBinary(ld, p).code == 0
  {
  }

  /** The guest's NULL-terminated `char *argv[]`. */
  function CArgv(argv: seq<string>): (r: seq<Arg>)
    ensures |r| == |argv| + 1 && r[|argv|] == Null
    ensures forall i :: 0 <= i < |argv| ==> r[i] == Str(argv[i])
  {
    Strs(argv) + [Null]
  }

  /** Each string as a non-NULL slot, in order. */
  function Strs(xs: seq<string>): seq<Arg>
  {
    seq(|xs|, i requires 0 <= i < |xs| => Str(xs[i]))
  }

  /**
   * The argument vector `user_execve` hands to the kernel: the guest's
   * `argv[0]`, the engine's injected options, then the whole guest argv
   * again, NULL terminator included.
   */
  function ExecArgvFor(argv: seq<string>, opts: seq<string>): (r: seq<Arg>)
    ensures |r| == 1 + |opts| + |argv| + 1
    ensures r[0] == CArgv(argv)[0]
    ensures forall i :: 0 <= i < |opts| ==> r[1 + i] == Str(opts[i])
    ensures forall j :: 0 <= j < |argv| ==> r[1 + |opts| + j] == Str(argv[j])
    ensures r[|r| - 1] == Null
  {
    ExecArgvLayout(argv, opts);
    [CArgv(argv)[0]] + Strs(opts) + CArgv(argv)
  }

  /** Where each part of the rebuilt vector lands. */
  lemma ExecArgvLayout(argv: seq<string>, opts: seq<string>)
    ensures var r := [CArgv(argv)[0]] + Strs(opts) + CArgv(argv);
      |r| == 1 + |opts| + |argv| + 1 &&
      (forall i :: 0 <= i < |opts| ==> r[1 + i] == Str(opts[i])) &&
      (forall j :: 0 <= j < |argv| ==> r[1 + |opts| + j] == Str(argv[j])) &&
      r[|r| - 1] == Null
  {
    var whole := CArgv(argv);
    var options := Strs(opts);
    var r := [whole[0]] + options + whole;
    assert |options| == |opts|;
    forall i | 0 <= i < |opts| ensures r[1 + i] == Str(opts[i]) {
      assert r[1 + i] == options[i];
    }
    forall j | 0 <= j < |argv| ensures r[1 + |opts| + j] == Str(argv[j]) {
      assert r[1 + |opts| + j] == whole[j];
    }
    assert r[|r| - 1] == whole[|argv|];
  }

  /**
   * With an empty guest argv, slot 0 is the guest's NULL terminator, so the
   * vector the kernel sees ends before the injected options.
   */
  lemma EmptyArgvHidesOptions(opts: seq<string>)
    ensures ExecArgvFor([], opts)[0] == Null
    ensures |ExecArgvFor([], opts)| == |opts| + 2
  {
  }

  /**
   * The validation phase of `user_execve`, which has no side effects: the
   * size guard, then the loadability probe. Code 0 means "go ahead".
   * `optionCount` is `option_args_count()`.
   */
  function ValidateExec(ld: Loaders, p: Prog, optionCount: nat): (r: Dispatch)
    ensures |p.argv| + optionCount + 2 > ExecArgvSlots ==> r == Dispatch(-E2BIG, [])
    ensures |p.argv| + optionCount + 2 <= ExecArgvSlots ==> r == CanLoadBinary(ld, p)
    ensures r.code == 0 ==> 1 + optionCount + |p.argv| + 1 <= ExecArgvSlots
  {
    if |p.argv| + optionCount + 2 > ExecArgvSlots then Dispatch(-E2BIG, [])
    else CanLoadBinary(ld, p)
  }

  /** What a call of `user_execve` ends in. */
  datatype ExecResult =
    | Failed(code: int)
      /** The real exec, which never returns: past the point of no return. */
    | Reexec(path: string, argv: seq<Arg>, envp: seq<string>)

  /** The process-wide `exec_argv` buffer and its lock `argv_lock`. */
  class ExecArgv {
    var slots: array<Arg>
    var locked: bool

    ghost predicate Valid()
      reads this
    {
      slots.Length == ExecArgvSlots
    }

    /** The static buffer starts zeroed and the lock free. */
    constructor ()
      ensures Valid() && fresh(slots) && !locked
      ensures forall i :: 0 <= i < slots.Length ==> slots[i] == Null
    {
      slots := new Arg[ExecArgvSlots](_ => Null);
      locked := false;
    }

    /**
     * `option_args_setup(&exec_argv[at], ...)`: writes the engine's options
     * into the slots from `at` on and returns the index after them.
     */
    method OptionArgsSetup(at: nat, opts: seq<string>) returns (next: nat)
      requires Valid() && at + |opts| <= slots.Length
      modifies slots
      ensures next == at + |opts|
      ensures slots[at..next] == Strs(opts)
      ensures slots[..at] == old(slots[..at]) && slots[next..] == old(slots[next..])
    {
      next := at + |opts|;
      forall i | at <= i < next {
        slots[i] := Str(opts[i - at]);
      }
    }

    /** `memcpy(&exec_argv[at], argv, (count + 1) * sizeof(char *))`. */
    method CopyArgv(at: nat, argv: seq<string>)
      requires Valid() && at + |argv| + 1 <= slots.Length
      modifies slots
      ensures slots[at..at + |argv| + 1] == CArgv(argv)
      ensures slots[..at] == old(slots[..at]) && slots[at + |argv| + 1..] == old(slots[at + |argv| + 1..])
    {
      var src := CArgv(argv);
      forall i | at <= i < at + |src| {
        slots[i] := src[i - at];
      }
    }

    /**
     * `user_execve`. A rejected request returns its error code and touches
     * neither the lock nor the buffer; an accepted one takes the lock,
     * rebuilds the argument vector in `slots` and re-executes the engine.
     * `optionArgs` gives the option strings `option_args_setup` writes for
     * a target filename, which is how the new engine learns what to load.
     */
    method UserExecve(ld: Loaders, filename: string, argv: seq<string>, envp: seq<string>,
                      optionArgs: string -> seq<string>)
      returns (r: ExecResult)
      requires Valid()
      modifies this`locked, slots
      ensures Valid()
      ensures r.Failed? <==> ValidateExec(ld, Prog(filename, argv, envp), |optionArgs(filename)|).code != 0
      ensures r.Failed? ==> r.code == ValidateExec(ld, Prog(filename, argv, envp), |optionArgs(filename)|).code
      ensures r.Failed? ==> locked == old(locked) && slots[..] == old(slots[..])
      ensures r.Reexec? ==> locked && r.path == SelfExe && r.envp == envp
      ensures r.Reexec? ==> r.argv == ExecArgvFor(argv, optionArgs(filename)) && slots[..|r.argv|] == r.argv
      ensures r.Reexec? ==> slots[|r.argv|..] == old(slots[|r.argv|..])
    {
      var opts := optionArgs(filename);
      var verdict := ValidateExec(ld, Prog(filename, argv, envp), |opts|);
      if verdict.code != 0 {
        return Failed(verdict.code);
      }
      // past the point of no return
      locked := true;
      slots[0] := CArgv(argv)[0];
      var next := OptionArgsSetup(1, opts);
      ghost var placed := slots[..next];
      assert placed == [CArgv(argv)[0]] + Strs(opts) by {
        assert placed == placed[..1] + placed[1..];
      }
      CopyArgv(next, argv);
      var n := next + |argv| + 1;
      assert slots[..n] == ExecArgvFor(argv, opts) by {
        assert slots[..n] == slots[..next] + slots[next..n];
      }
      r := Reexec(SelfExe, slots[..n], envp);
    }
  }
}
