/**
 * The decision logic of the engine's entry point `minemu_main`
 * (src/minemu.c): the self-relaunch that disables address-space
 * randomisation, the choice of the program name, the PATH/PWD search with
 * its sticky permission error, the visible process name and the patching
 * of the auxiliary vector. Kernel calls and the engine's subsystems are
 * oracles or parameters.
 */
module Minemu {

  import opened Wrappers
  import Exec

  /** Linux errno values. */
  const ENOENT := 2
  const EACCES := 13

  /** The personality flag that disables address-space randomisation. */
  const ADDR_NO_RANDOMIZE: bv32 := 0x0040000

  /** Auxiliary-vector tags. */
  const AT_HWCAP := 16
  const AT_SYSINFO := 32
  const AT_SYSINFO_EHDR := 33

  // ---------------------------------------------------------------------
  // Self-relaunch

  /**
   * The personality the engine sets before re-executing itself, or None
   * when randomisation is already off and no relaunch happens.
   */
  function RelaunchPersonality(pers: bv32): (r: Option<bv32>)
    ensures r.Some? <==> pers & ADDR_NO_RANDOMIZE == 0
    ensures r.Some? ==> r.value & ADDR_NO_RANDOMIZE != 0
    ensures r.Some? ==> r.value & !ADDR_NO_RANDOMIZE == pers & !ADDR_NO_RANDOMIZE
  {
    if ADDR_NO_RANDOMIZE & !pers != 0 then Some(ADDR_NO_RANDOMIZE | pers) else None
  }

  /** The relaunched engine sees the flag set and does not relaunch again. */
  lemma RelaunchOnce(pers: bv32)
    requires RelaunchPersonality(pers).Some?
    ensures RelaunchPersonality(RelaunchPersonality(pers).value) == None
  {
  }

  // ---------------------------------------------------------------------
  // Program name

  /** `progname` after the check at the top of `minemu_main`. */
  function ChooseProgname(progname: Option<string>, argv0: string): (r: Option<string>)
    ensures progname.Some? ==> r == progname
    ensures progname.None? ==> (r.Some? <==> |argv0| > 0 && argv0[0] == '/')
    ensures r.Some? && progname.None? ==> r.value == argv0
  {
    if progname.None? && |argv0| > 0 && argv0[0] == '/' then Some(argv0) else progname
  }

  // ---------------------------------------------------------------------
  // Strings

  /** `strchr`: the index of the first `c` in `s`. */
  function Find(s: string, c: char): (r: Option<nat>)
    ensures r.None? <==> c !in s
    ensures r.Some? ==> r.value < |s| && s[r.value] == c && c !in s[..r.value]
  {
    if s == [] then None
    else if s[0] == c then Some(0)
    else match Find(s[1..], c)
      case None => None
      case Some(i) =>
        assert s[..i + 1] == [s[0]] + s[1..][..i];
        Some(i + 1)
  }

  function Count(s: string, c: char): nat
  {
    if s == [] then 0 else (if s[0] == c then 1 else 0) + Count(s[1..], c)
  }

  /** The `':'`-separated segments of a search path, empty ones included. */
  function Segments(p: string): (r: seq<string>)
    ensures |r| >= 1
    ensures forall k :: 0 <= k < |r| ==> ':' !in r[k]
    decreases |p|
  {
    match Find(p, ':')
    case None => [p]
    case Some(i) => [p[..i]] + Segments(p[i + 1..])
  }

  function Join(segs: seq<string>, sep: char): string
  {
    if segs == [] then ""
    else if |segs| == 1 then segs[0]
    else segs[0] + [sep] + Join(segs[1..], sep)
  }

  lemma {:induction false} CountConcat(a: string, b: string, c: char)
    ensures Count(a + b, c) == Count(a, c) + Count(b, c)
  {
    if a == [] {
      assert a + b == b;
    } else {
      assert (a + b)[1..] == a[1..] + b;
      CountConcat(a[1..], b, c);
    }
  }

  lemma {:induction false} CountAbsent(s: string, c: char)
    requires c !in s
    ensures Count(s, c) == 0
  {
    if s != [] {
      CountAbsent(s[1..], c);
    }
  }

  /** There is one segment per `':'`, plus one. */
  lemma {:induction false} SegmentsCount(p: string)
    ensures |Segments(p)| == Count(p, ':') + 1
    decreases |p|
  {
    match Find(p, ':')
    case None =>
      CountAbsent(p, ':');
    case Some(i) =>
      assert p == p[..i] + ([':'] + p[i + 1..]);
      CountConcat(p[..i], [':'] + p[i + 1..], ':');
      CountConcat([':'], p[i + 1..], ':');
      CountAbsent(p[..i], ':');
      SegmentsCount(p[i + 1..]);
  }

  /** Joining the segments with `':'` gives the search path back. */
  lemma {:induction false} SegmentsJoin(p: string)
    ensures Join(Segments(p), ':') == p
    decreases |p|
  {
    match Find(p, ':')
    case None =>
    case Some(i) =>
      var rest := Segments(p[i + 1..]);
      assert ([p[..i]] + rest)[1..] == rest;
      SegmentsJoin(p[i + 1..]);
      assert p == p[..i] + [':'] + p[i + 1..];
  }

  // ---------------------------------------------------------------------
  // Path search

  /** The environment variable searched for `argv[0]`. */
  function SearchVar(argv0: string): (r: string)
    ensures r == "PWD" <==> '/' in argv0
    ensures r == "PATH" <==> '/' !in argv0
  {
    if '/' in argv0 then "PWD" else "PATH"
  }

  /** `getenve(name, envp)`, with the environment given as a map. */
  function Getenv(environ: map<string, string>, name: string): Option<string>
  {
    if name in environ then Some(environ[name]) else None
  }

  /** The filenames the search tries, in order, for a search path. */
  function Candidates(path: Option<string>, name: string): seq<string>
  {
    match path
    case None => []
    case Some(p) => InDirectories(Segments(p), name)
  }

  /** `dir + "/" + name` for each directory, in order. */
  function InDirectories(dirs: seq<string>, name: string): seq<string>
  {
    seq(|dirs|, k requires 0 <= k < |dirs| => dirs[k] + "/" + name)
  }

  lemma InDirectoriesCons(dir: string, dirs: seq<string>, name: string)
    ensures InDirectories([dir] + dirs, name) == [dir + "/" + name] + InDirectories(dirs, name)
  {
    var a := InDirectories([dir] + dirs, name);
    var b := [dir + "/" + name] + InDirectories(dirs, name);
    assert |a| == |b|;
    forall k | 0 <= k < |a| ensures a[k] == b[k] {
      if k > 0 {
        assert ([dir] + dirs)[k] == dirs[k - 1];
      }
    }
  }

  /** One candidate per segment, each the segment, a `'/'` and the name. */
  lemma CandidatesOfPath(p: string, name: string)
    ensures |Candidates(Some(p), name)| == |Segments(p)| == Count(p, ':') + 1
    ensures forall k :: 0 <= k < |Segments(p)| ==>
      Candidates(Some(p), name)[k] == Segments(p)[k] + "/" + name
  {
    SegmentsCount(p);
  }

  /** Peeling the first segment off the search path, as the loop does. */
  lemma CandidatesStep(p: string, name: string)
    ensures match Find(p, ':')
      case None => Candidates(Some(p), name) == [p + "/" + name] + Candidates(None, name)
      case Some(i) => Candidates(Some(p), name) == [p[..i] + "/" + name] + Candidates(Some(p[i + 1..]), name)
  {
    match Find(p, ':')
    case None =>
      InDirectoriesCons(p, [], name);
      assert [p] + [] == [p];
    case Some(i) =>
      assert Segments(p) == [p[..i]] + Segments(p[i + 1..]);
      InDirectoriesCons(p[..i], Segments(p[i + 1..]), name);
  }

  /** The state of the search: `ret`, `prog.filename` and what was tried. */
  datatype Attempt = Attempt(ret: int, filename: Option<string>, tried: seq<string>)

  /** The update of `ret` after one candidate: -EACCES sticks unless a later load succeeds. */
  function Sticky(ret: int, retTmp: int): (r: int)
    ensures (r >= 0) == (retTmp >= 0)
    ensures retTmp >= 0 ==> r == retTmp
    ensures ret == -EACCES && retTmp < 0 ==> r == -EACCES
    ensures ret != -EACCES ==> r == retTmp
  {
    if ret != -EACCES || retTmp >= 0 then retTmp else ret
  }

  /** The search over the remaining candidates, from state `s`. */
  function SearchFrom(cands: seq<string>, load: string -> int, s: Attempt): Attempt
    decreases |cands|
  {
    if s.ret >= 0 || cands == [] then s
    else SearchFrom(cands[1..], load,
                    Attempt(Sticky(s.ret, load(cands[0])), Some(cands[0]), s.tried + [cands[0]]))
  }

  /**
   * The search appends a prefix of the candidates to what was tried, stops early
   * only on success, and leaves in `filename` the last candidate it tried.
   */
  lemma {:induction false} SearchTriesPrefix(cands: seq<string>, load: string -> int, s: Attempt)
    ensures var r := SearchFrom(cands, load, s);
      |s.tried| <= |r.tried| <= |s.tried| + |cands| &&
      r.tried == s.tried + cands[..|r.tried| - |s.tried|] &&
      (r.ret >= 0 || |r.tried| == |s.tried| + |cands|) &&
      (|r.tried| == |s.tried| ==> r == s) &&
      (|r.tried| > |s.tried| ==> r.filename == Some(r.tried[|r.tried| - 1]))
    decreases |cands|
  {
    if s.ret < 0 && cands != [] {
      var next := Attempt(Sticky(s.ret, load(cands[0])), Some(cands[0]), s.tried + [cands[0]]);
      SearchTriesPrefix(cands[1..], load, next);
      var r := SearchFrom(cands[1..], load, next);
      assert cands[..|r.tried| - |s.tried|] == [cands[0]] + cands[1..][..|r.tried| - |next.tried|];
    }
  }

  /** The whole search, starting from -ENOENT with no filename. */
  function PathSearch(path: Option<string>, name: string, load: string -> int): (r: Attempt)
    ensures |r.tried| <= |Candidates(path, name)| && r.tried == Candidates(path, name)[..|r.tried|]
    ensures r.ret >= 0 || r.tried == Candidates(path, name)
    ensures r.tried == [] ==> r == Attempt(-ENOENT, None, [])
    ensures r.tried != [] ==> r.filename == Some(r.tried[|r.tried| - 1])
    ensures path.None? ==> r == Attempt(-ENOENT, None, [])
  {
    var cands := Candidates(path, name);
    var start := Attempt(-ENOENT, None, []);
    SearchTriesPrefix(cands, load, start);
    var r := SearchFrom(cands, load, start);
    assert r.tried == cands[..|r.tried|] by {
      assert start.tried + cands[..|r.tried|] == cands[..|r.tried|];
    }
    assert r.ret < 0 ==> r.tried == cands by {
      assert cands[..|cands|] == cands;
    }
    r
  }

  /**
   * The search stops at the first candidate that loads: it reports that
   * candidate and its result, and tries nothing after it.
   */
  lemma {:induction false} SearchStopsAtFirstSuccess(cands: seq<string>, load: string -> int, s: Attempt, i: nat)
    requires s.ret < 0
    requires i < |cands| && load(cands[i]) >= 0
    requires forall j :: 0 <= j < i ==> load(cands[j]) < 0
    ensures SearchFrom(cands, load, s) == Attempt(load(cands[i]), Some(cands[i]), s.tried + cands[..i + 1])
    decreases |cands|
  {
    var s' := Attempt(Sticky(s.ret, load(cands[0])), Some(cands[0]), s.tried + [cands[0]]);
    if i == 0 {
      assert cands[..1] == [cands[0]];
    } else {
      SearchStopsAtFirstSuccess(cands[1..], load, s', i - 1);
      assert s.tried + [cands[0]] + cands[1..][..i] == s.tried + cands[..i + 1];
    }
  }

  /** Some candidate among `cands` is refused with -EACCES. */
  ghost predicate PermissionDenied(cands: seq<string>, load: string -> int)
  {
    exists j :: 0 <= j < |cands| && load(cands[j]) == -EACCES
  }

  /**
   * When no candidate loads, every one is tried, the filename is the last
   * one, and the result is -EACCES if any candidate (or the starting state)
   * had it, otherwise the last candidate's own error.
   */
  lemma {:induction false} SearchExhausts(cands: seq<string>, load: string -> int, s: Attempt)
    requires s.ret < 0
    requires forall j :: 0 <= j < |cands| ==> load(cands[j]) < 0
    ensures SearchFrom(cands, load, s).tried == s.tried + cands
    ensures SearchFrom(cands, load, s).filename ==
      (if cands == [] then s.filename else Some(cands[|cands| - 1]))
    ensures SearchFrom(cands, load, s).ret ==
      (if s.ret == -EACCES || PermissionDenied(cands, load) then -EACCES
       else if cands == [] then s.ret
       else load(cands[|cands| - 1]))
    decreases |cands|
  {
    if cands != [] {
      var rest := cands[1..];
      var s' := Attempt(Sticky(s.ret, load(cands[0])), Some(cands[0]), s.tried + [cands[0]]);
      SearchExhausts(rest, load, s');
      assert s.tried + [cands[0]] + rest == s.tried + cands;
      if PermissionDenied(rest, load) {
        var j :| 0 <= j < |rest| && load(rest[j]) == -EACCES;
        assert load(cands[j + 1]) == -EACCES;
      }
      if PermissionDenied(cands, load) {
        var j :| 0 <= j < |cands| && load(cands[j]) == -EACCES;
        if j > 0 {
          assert rest[j - 1] == cands[j];
        }
      }
    }
  }

  /** The search succeeds exactly when some candidate loads. */
  lemma {:induction false} SearchSucceedsIff(cands: seq<string>, load: string -> int, s: Attempt)
    requires s.ret < 0
    ensures SearchFrom(cands, load, s).ret >= 0 <==> exists i :: 0 <= i < |cands| && load(cands[i]) >= 0
    decreases |cands|
  {
    if cands != [] {
      var s' := Attempt(Sticky(s.ret, load(cands[0])), Some(cands[0]), s.tried + [cands[0]]);
      if load(cands[0]) < 0 {
        SearchSucceedsIff(cands[1..], load, s');
        if exists i :: 0 <= i < |cands| && load(cands[i]) >= 0 {
          var i :| 0 <= i < |cands| && load(cands[i]) >= 0;
          assert load(cands[1..][i - 1]) >= 0;
        }
      }
    }
  }

  /**
   * `minemu_main`'s search loop (src/minemu.c): split the search path at
   * each `':'`, try `segment + "/" + name`, keep -EACCES unless a later
   * candidate loads, and stop at the first non-negative result. `tried`
   * lists the filenames handed to the loader.
   */
  method SearchPath(search: Option<string>, name: string, load: string -> int)
    returns (ret: int, filename: Option<string>, ghost tried: seq<string>)
    ensures ret == PathSearch(search, name, load).ret
    ensures filename == PathSearch(search, name, load).filename
    ensures tried == PathSearch(search, name, load).tried
  {
    ret := -ENOENT;
    filename := None;
    tried := [];
    var path := search;
    while ret < 0 && path.Some?
      invariant SearchFrom(Candidates(path, name), load, Attempt(ret, filename, tried)) == PathSearch(search, name, load)
      decreases if path.Some? then |path.value| + 1 else 0
    {
      var candidate, next := NextCandidate(path.value, name);
      filename := Some(candidate);
      var retTmp := load(candidate);
      tried := tried + [candidate];
      if ret != -EACCES || retTmp >= 0 {
        ret := retTmp;
      }
      path := next;
    }
  }

  /**
   * One turn of the search loop's string work: `strchr` for the next
   * `':'`, the candidate `segment + "/" + name` built by `strncpy` and
   * `strcat`, and the rest of the path after the `':'`, if there was one.
   */
  method NextCandidate(path: string, name: string) returns (candidate: string, next: Option<string>)
    ensures Candidates(Some(path), name) == [candidate] + Candidates(next, name)
    ensures next.Some? ==> |next.value| < |path|
  {
    CandidatesStep(path, name);
    var len: nat;
    match Find(path, ':') {
      case Some(i) =>
        len, next := i, Some(path[i + 1..]);
      case None =>
        len, next := |path|, None;
        assert path[..len] == path;
    }
    candidate := path[..len] + "/" + name;
  }

  /** The first `':'` of `dir + ":" + rest` is the one after `dir`. */
  lemma FirstSeparator(dir: string, rest: string)
    requires ':' !in dir
    ensures Find(dir + ":" + rest, ':') == Some(|dir|)
    ensures (dir + ":" + rest)[..|dir|] == dir && (dir + ":" + rest)[|dir| + 1..] == rest
  {
    var p := dir + ":" + rest;
    assert p[|dir|] == ':';
    assert p[..|dir|] == dir;
  }

  /** A directory with no `':'` in front of a separator is the first segment. */
  lemma SegmentsCons(dir: string, rest: string)
    requires ':' !in dir
    ensures Segments(dir + ":" + rest) == [dir] + Segments(rest)
  {
    FirstSeparator(dir, rest);
  }

  /** A path with no `':'` is one segment. */
  lemma OneSegment(c: string)
    requires ':' !in c
    ensures Segments(c) == [c]
  {
    assert Find(c, ':') == None;
  }

  /**
   * The segments of a three-directory search path. The proof goes through
   * `Regroup` and `SegmentsAfterFirst` as separate lemmas: done in one body,
   * regrouping and splitting together exceed the verifier's resource limit.
   */
  lemma ThreeSegments(a: string, b: string, c: string)
    requires ':' !in a && ':' !in b && ':' !in c
    ensures Segments(a + ":" + b + ":" + c) == [a, b, c]
  {
    Regroup(a, b, c);
    SegmentsAfterFirst(a, b, c);
  }

  /** `a:b:c` read as `a` followed by `:b:c`. */
  lemma Regroup(a: string, b: string, c: string)
    ensures a + ":" + b + ":" + c == a + ":" + (b + ":" + c)
  {
  }

  /** Three segments once the path is grouped after the first directory. */
  lemma SegmentsAfterFirst(a: string, b: string, c: string)
    requires ':' !in a && ':' !in b && ':' !in c
    ensures Segments(a + ":" + (b + ":" + c)) == [a, b, c]
  {
    SegmentsCons(a, b + ":" + c);
    TwoSegments(b, c);
  }

  /** The segments of a two-directory search path. */
  lemma TwoSegments(b: string, c: string)
    requires ':' !in b && ':' !in c
    ensures Segments(b + ":" + c) == [b, c]
  {
    SegmentsCons(b, c);
    OneSegment(c);
  }

  /**
   * With the search path "A:B:C" and the program loadable in B but not in
   * A, the search loads B's candidate and never tries C's.
   */
  lemma ExampleFoundInSecondDirectory(a: string, b: string, c: string, name: string, load: string -> int)
    requires ':' !in a && ':' !in b && ':' !in c
    requires load(a + "/" + name) < 0 && load(b + "/" + name) >= 0
    ensures PathSearch(Some(a + ":" + b + ":" + c), name, load)
         == Attempt(load(b + "/" + name), Some(b + "/" + name), [a + "/" + name, b + "/" + name])
  {
    var p := a + ":" + b + ":" + c;
    ThreeSegments(a, b, c);
    CandidatesOfPath(p, name);
    var cands := Candidates(Some(p), name);
    assert cands[..2] == [a + "/" + name, b + "/" + name];
    SearchStopsAtFirstSuccess(cands, load, Attempt(-ENOENT, None, []), 1);
  }

  /**
   * With the search path "A:B", the program refused with -EACCES in A and
   * missing from B, the search reports -EACCES rather than -ENOENT.
   */
  lemma ExamplePermissionDeniedSticks(a: string, b: string, name: string, load: string -> int)
    requires ':' !in a && ':' !in b
    requires load(a + "/" + name) == -EACCES && load(b + "/" + name) == -ENOENT
    ensures PathSearch(Some(a + ":" + b), name, load).ret == -EACCES
  {
    var p := a + ":" + b;
    FirstSeparator(a, b);
    CandidatesOfPath(p, name);
    var cands := Candidates(Some(p), name);
    assert cands == [a + "/" + name, b + "/" + name];
    SearchExhausts(cands, load, Attempt(-ENOENT, None, []));
    assert load(cands[0]) == -EACCES;
  }

  // ---------------------------------------------------------------------
  // Process name

  /** The part of `filename` after its last `'/'`, or all of it if it has none. */
  function ProcessName(filename: string): (r: string)
    ensures '/' !in r
    ensures |r| <= |filename| && r == filename[|filename| - |r|..]
    ensures |r| < |filename| ==> filename[|filename| - |r| - 1] == '/'
    decreases |filename|
  {
    if filename == [] || filename[|filename| - 1] == '/' then []
    else
      var init := filename[..|filename| - 1];
      assert filename == init + [filename[|filename| - 1]];
      ProcessName(init) + [filename[|filename| - 1]]
  }

  // ---------------------------------------------------------------------
  // Auxiliary vector

  /** `get_aux`: a tag the vector does not hold reads as 0. */
  function AuxValue(auxv: map<int, bv32>, tag: int): (r: bv32)
    ensures tag in auxv ==> r == auxv[tag]
    ensures tag !in auxv ==> r == 0
  {
    if tag in auxv then auxv[tag] else 0
  }

  /**
   * The legacy fast-syscall entry moved into the engine's vDSO: its offset
   * within its page is kept; with a page-aligned vDSO it lands in that page.
   */
  function RebaseSysinfo(sysinfo: bv32, vdso: bv32): (r: bv32)
    ensures vdso & 0xfff == 0 ==> r & !0xfff == vdso && r & 0xfff == sysinfo & 0xfff
  {
    (sysinfo & 0xfff) + vdso
  }

  /** The auxiliary vector after `minemu_main` has patched it. */
  function PatchedAux(auxv: map<int, bv32>, vdso: bv32, hwcapMask: bv32): (r: map<int, bv32>)
    ensures AuxValue(r, AT_HWCAP) == AuxValue(auxv, AT_HWCAP) & hwcapMask
    ensures AuxValue(r, AT_SYSINFO_EHDR) == vdso
    ensures AT_SYSINFO in r <==> AT_SYSINFO in auxv
    ensures AuxValue(auxv, AT_SYSINFO) == 0 ==> AuxValue(r, AT_SYSINFO) == 0
    ensures AuxValue(auxv, AT_SYSINFO) != 0 ==>
      AuxValue(r, AT_SYSINFO) == RebaseSysinfo(AuxValue(auxv, AT_SYSINFO), vdso)
    ensures forall t :: t != AT_HWCAP && t != AT_SYSINFO && t != AT_SYSINFO_EHDR ==>
      (t in r <==> t in auxv) && (t in r ==> r[t] == auxv[t])
  {
    var a := auxv[AT_HWCAP := AuxValue(auxv, AT_HWCAP) & hwcapMask][AT_SYSINFO_EHDR := vdso];
    var sysinfo := AuxValue(a, AT_SYSINFO);
    assert sysinfo == AuxValue(auxv, AT_SYSINFO);
    if sysinfo != 0 then a[AT_SYSINFO := RebaseSysinfo(sysinfo, vdso)] else a
  }

  // ---------------------------------------------------------------------
  // Bootstrap

  /**
   * `argv[0]`; with an empty argv the code reads it only when `progname` is
   * unset, so the empty string here stands for a value nothing looks at.
   */
  function FirstArg(argv: seq<string>): string
  {
    if |argv| > 0 then argv[0] else ""
  }

  /** The load result of `load_binary` for each filename the search may try. */
  function LoadOracle(ld: Exec.Loaders, argv: seq<string>, envp: seq<string>): string -> int
  {
    f => Exec.LoadBinary(ld, Exec.Prog(f, argv, envp)).code
  }

  /** How the target is found: `progname` directly, or the PATH/PWD search. */
  function Resolve(progname: Option<string>, argv0: string, environ: map<string, string>, load: string -> int): (r: Attempt)
    ensures progname.Some? ==> r.tried == [progname.value] && r.filename == progname && r.ret == load(progname.value)
    ensures progname.None? ==>
      var cands := Candidates(Getenv(environ, SearchVar(argv0)), argv0);
      |r.tried| <= |cands| && r.tried == cands[..|r.tried|] && (r.ret >= 0 || r.tried == cands)
    ensures progname.None? && SearchVar(argv0) !in environ ==> r == Attempt(-ENOENT, None, [])
  {
    match progname
    case Some(p) => Attempt(load(p), Some(p), [p])
    case None => PathSearch(Getenv(environ, SearchVar(argv0)), argv0, load)
  }

  /** A successful resolution names the file that was loaded. */
  lemma ResolvedFilename(progname: Option<string>, argv0: string, environ: map<string, string>, load: string -> int)
    ensures var res := Resolve(progname, argv0, environ, load);
      res.ret >= 0 ==> res.filename.Some? && load(res.filename.value) == res.ret
  {
    var res := Resolve(progname, argv0, environ, load);
    if progname.None? && res.ret >= 0 {
      var cands := Candidates(Getenv(environ, SearchVar(argv0)), argv0);
      var s := Attempt(-ENOENT, None, []);
      SearchSucceedsIff(cands, load, s);
      var i :| 0 <= i < |cands| && load(cands[i]) >= 0;
      var k := FirstSuccess(cands, load, i);
      SearchStopsAtFirstSuccess(cands, load, s, k);
    }
  }

  /** The first candidate at or before `i` that loads, when candidate `i` does. */
  lemma {:induction false} FirstSuccess(cands: seq<string>, load: string -> int, i: nat) returns (k: nat)
    requires i < |cands| && load(cands[i]) >= 0
    ensures k <= i && load(cands[k]) >= 0
    ensures forall j :: 0 <= j < k ==> load(cands[j]) < 0
    decreases i
  {
    if forall j :: 0 <= j < i ==> load(cands[j]) < 0 {
      k := i;
    } else {
      var j :| 0 <= j < i && load(cands[j]) >= 0;
      k := FirstSuccess(cands, load, j);
    }
  }

  /** What a run of `minemu_main` ends in. None of these returns to the caller. */
  datatype Boot =
    | Relaunched(personality: bv32, path: string, argv: seq<string>, envp: seq<string>)
    | Exited(status: int)
    | Started(filename: string, processName: string)

  /** The process-wide state `minemu_main` updates: `progname` and the auxiliary vector. */
  class Process {
    var progname: Option<string>
    var auxv: map<int, bv32>

    constructor (progname: Option<string>, auxv: map<int, bv32>)
      ensures this.progname == progname && this.auxv == auxv
    {
      this.progname := progname;
      this.auxv := auxv;
    }

    /** `set_aux`. */
    method SetAux(tag: int, value: bv32)
      modifies this`auxv
      ensures auxv == old(auxv)[tag := value]
    {
      auxv := auxv[tag := value];
    }

    /** The three `set_aux` calls at the end of `minemu_main`. */
    method PatchAux(vdso: bv32, hwcapMask: bv32)
      modifies this`auxv
      ensures auxv == PatchedAux(old(auxv), vdso, hwcapMask)
    {
      ghost var before := auxv;
      SetAux(AT_HWCAP, AuxValue(auxv, AT_HWCAP) & hwcapMask);
      SetAux(AT_SYSINFO_EHDR, vdso);
      var sysinfo := AuxValue(auxv, AT_SYSINFO);
      assert sysinfo == AuxValue(before, AT_SYSINFO);
      if sysinfo != 0 {
        SetAux(AT_SYSINFO, RebaseSysinfo(sysinfo, vdso));
      }
    }

    /**
     * `minemu_main`. `pers` is the queried personality and
     * `relaunchReturns` says whether the relaunching execve failed and
     * returned; `argv` is what `parse_options` left of `origArgv`, and
     * `progname` on entry is what option parsing set.
     */
    method MinemuMain(pers: bv32, relaunchReturns: bool, origArgv: seq<string>, argv: seq<string>,
                envp: seq<string>, environ: map<string, string>, ld: Exec.Loaders,
                vdso: bv32, hwcapMask: bv32)
      returns (out: Boot)
      requires progname.Some? || |argv| >= 1 || (RelaunchPersonality(pers).Some? && !relaunchReturns)
      modifies this
      ensures RelaunchPersonality(pers).Some? && !relaunchReturns ==>
        out == Relaunched(RelaunchPersonality(pers).value, Exec.SelfExe, origArgv, envp) &&
        progname == old(progname) && auxv == old(auxv)
      ensures RelaunchPersonality(pers).None? || relaunchReturns ==>
        progname == ChooseProgname(old(progname), FirstArg(argv)) &&
        var res := Resolve(progname, FirstArg(argv), environ, LoadOracle(ld, argv, envp));
        (out.Exited? <==> res.ret < 0) &&
        (out.Started? <==> res.ret >= 0) &&
        (out.Exited? ==> out.status == 1 && auxv == old(auxv)) &&
        (out.Started? ==> res.filename == Some(out.filename) &&
                          out.processName == ProcessName(out.filename) &&
                          auxv == PatchedAux(old(auxv), vdso, hwcapMask))
    {
      var relaunch := RelaunchPersonality(pers);
      if relaunch.Some? && !relaunchReturns {
        return Relaunched(relaunch.value, Exec.SelfExe, origArgv, envp);
      }
      progname := ChooseProgname(progname, FirstArg(argv));
      var load := LoadOracle(ld, argv, envp);
      var ret: int;
      var filename: Option<string>;
      match progname {
        case Some(p) =>
          ret, filename := load(p), Some(p);
        case None =>
          ghost var tried;
          ret, filename, tried := SearchPath(Getenv(environ, SearchVar(argv[0])), argv[0], load);
      }
      ResolvedFilename(progname, FirstArg(argv), environ, load);
      if ret < 0 {
        return Exited(1);
      }
      var name := ProcessName(filename.value);
      PatchAux(vdso, hwcapMask);
      out := Started(filename.value, name);
    }
  }
}
