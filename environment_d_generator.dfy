/**
 * systemd's environment.d generator: build the list of environment.d
 * directories (the per-user one first), collect the `*.conf` files in them,
 * merge every file into one environment block, and print each entry as
 * `NAME=quoted-value`.
 *
 * The collaborators the generator calls and whose code is not part of this
 * model are inputs: the value each returned (`Collaborators`), or, where the
 * generator calls one repeatedly on values it computes, a function standing
 * for it. Nothing is assumed about how they work beyond what their C
 * signatures say, except that `merge_env_file` keeps every entry of the
 * block in `NAME=VALUE` form, which the generator asserts.
 */
module EnvironmentDGenerator {
  import opened CString

  const ENOMEM: int := 12
  const EXIT_SUCCESS: int := 0
  const EXIT_FAILURE: int := 1

  type Path = string

  /** An environment block (a `char **` strv): entries of the form `NAME=VALUE`. */
  type Env = seq<string>

  datatype Option<T> = None | Some(value: T)

  /** A negative error code or a result. */
  datatype Outcome<T> = Ok(value: T) | Err(code: int)

  /**
   * A C call returning an `int` and handing back a value through an out
   * pointer; the value means something only when `r >= 0`.
   */
  datatype Call<T> = Call(r: int, value: T)

  /** The block `merge_env_file` leaves behind, and what it returned. */
  datatype MergeStep = MergeStep(env: Env, r: int)

  /** One printed line: the name as found and the quoted value. */
  datatype Line = Line(name: string, value: string)

  datatype Collaborators = Collaborators(
    // strv_split_nulstr(CONF_PATHS_NULSTR("environment.d")); None is NULL
    confPaths: Option<seq<Path>>,
    // sd_path_home(SD_PATH_USER_CONFIGURATION, "environment.d", &c)
    userDir: Call<Path>,
    // the code strv_extend_front returns; on success it prepends its argument
    extendFront: int,
    // conf_files_list_strv(&files, ".conf", NULL, 0, dirs)
    listFiles: seq<Path> -> Call<seq<Path>>,
    // merge_env_file(&env, NULL, file)
    mergeFile: (Env, Path) -> MergeStep,
    // shell_maybe_quote(value, ESCAPE_BACKSLASH), called once per entry
    quote: Quoter)

  /**
   * What `shell_maybe_quote` returns on the call made for entry `i` of the
   * block with that entry's value; None is NULL. The entry index lets an
   * allocation failure hit any call, whatever the value.
   */
  type Quoter = (nat, string) -> Option<string>

  /** Every entry is a C string (no NUL inside) of the form `NAME=VALUE`. */
  ghost predicate AllAssignments(env: Env) {
    forall i :: 0 <= i < |env| ==> '=' in env[i] && NUL !in env[i]
  }

  /** `merge_env_file` only ever leaves `NAME=VALUE` entries in the block. */
  ghost predicate KeepsAssignments(mergeFile: (Env, Path) -> MergeStep) {
    forall env: Env, file: Path :: AllAssignments(env) ==> AllAssignments(mergeFile(env, file).env)
  }

  // ---------------------------------------------------------------------
  // environment_dirs

  /**
   * The search path: the split compiled-in list with the per-user
   * directory put in front of it. Each failing step ends the function with
   * its own code.
   */
  function EnvironmentDirs(confPaths: Option<seq<Path>>, userDir: Call<Path>, extendFront: int)
    : (res: Outcome<seq<Path>>)
    ensures confPaths.None? ==> res == Err(-ENOMEM)
    ensures confPaths.Some? && userDir.r < 0 ==> res == Err(userDir.r)
    ensures confPaths.Some? && userDir.r >= 0 && extendFront < 0 ==> res == Err(extendFront)
    ensures res.Ok? <==> confPaths.Some? && userDir.r >= 0 && extendFront >= 0
    ensures res.Err? ==> res.code < 0
    ensures res.Ok? ==>
      && |res.value| == |confPaths.value| + 1
      && res.value[0] == userDir.value
      && res.value[1..] == confPaths.value
  {
    if confPaths.None? then Err(-ENOMEM)
    else if userDir.r < 0 then Err(userDir.r)
    else if extendFront < 0 then Err(extendFront)
    else Ok([userDir.value] + confPaths.value)
  }

  // ---------------------------------------------------------------------
  // The merge loop of load_and_print

  /**
   * Reference for "every file is merged, in list order, whatever each merge
   * returns": the block after handing each file to `merge_env_file` in turn.
   */
  function Replay(env: Env, files: seq<Path>, mergeFile: (Env, Path) -> MergeStep): Env
    decreases |files|
  {
    if files == [] then env else Replay(mergeFile(env, files[0]).env, files[1..], mergeFile)
  }

  /** What the `j`-th call of `merge_env_file` returns when all earlier files were merged. */
  function StepCode(env: Env, files: seq<Path>, mergeFile: (Env, Path) -> MergeStep, j: nat): int
    requires j < |files|
  {
    mergeFile(Replay(env, files[..j], mergeFile), files[j]).r
  }

  /** The outcome of the merge loop: the block, the code, the files handed to `merge_env_file`. */
  datatype Merged = Merged(env: Env, r: int, merged: seq<Path>)

  /** The merge loop: merge in order, ignore every failure but `-ENOMEM`, which ends it. */
  function MergeFiles(env: Env, files: seq<Path>, mergeFile: (Env, Path) -> MergeStep): (m: Merged)
    ensures m.r == 0 || m.r == -ENOMEM
    ensures m.merged <= files
    ensures m.r == 0 ==> m.merged == files
    ensures m.r == -ENOMEM ==> m.merged != []
    decreases |files|
  {
    if files == [] then Merged(env, 0, [])
    else
      var step := mergeFile(env, files[0]);
      if step.r == -ENOMEM then Merged(step.env, -ENOMEM, [files[0]])
      else
        var rest := MergeFiles(step.env, files[1..], mergeFile);
        assert [files[0]] + files[1..] == files;
        rest.(merged := [files[0]] + rest.merged)
  }

  /** A block of `NAME=VALUE` entries stays one through the merge loop. */
  lemma {:induction false} MergeKeepsAssignments(env: Env, files: seq<Path>, mergeFile: (Env, Path) -> MergeStep)
    requires KeepsAssignments(mergeFile)
    requires AllAssignments(env)
    ensures AllAssignments(MergeFiles(env, files, mergeFile).env)
    decreases |files|
  {
    if files != [] {
      var step := mergeFile(env, files[0]);
      assert AllAssignments(step.env);
      if step.r != -ENOMEM {
        MergeKeepsAssignments(step.env, files[1..], mergeFile);
      }
    }
  }

  lemma StepCodeShift(env: Env, files: seq<Path>, mergeFile: (Env, Path) -> MergeStep, j: nat)
    requires j + 1 < |files|
    ensures StepCode(env, files, mergeFile, j + 1)
         == StepCode(mergeFile(env, files[0]).env, files[1..], mergeFile, j)
  {
    assert files[..j + 1][0] == files[0];
    assert files[..j + 1][1..] == files[1..][..j];
  }

  /**
   * The error policy of the merge loop. With `k` files handed to
   * `merge_env_file`: the loop succeeds exactly when no call returns
   * `-ENOMEM`, and then every file was merged and the block is the replay of
   * all of them; otherwise the `k`-th call was the first to return
   * `-ENOMEM`, and no later file was merged. Any other code is swallowed.
   */
  lemma {:induction false} MergePolicy(env: Env, files: seq<Path>, mergeFile: (Env, Path) -> MergeStep)
    ensures var m := MergeFiles(env, files, mergeFile); var k := |m.merged|;
      && (m.r == 0 <==> forall j :: 0 <= j < |files| ==> StepCode(env, files, mergeFile, j) != -ENOMEM)
      && (m.r == 0 ==> m.env == Replay(env, files, mergeFile))
      && (m.r == -ENOMEM ==>
            && StepCode(env, files, mergeFile, k - 1) == -ENOMEM
            && forall j :: 0 <= j < k - 1 ==> StepCode(env, files, mergeFile, j) != -ENOMEM)
    decreases |files|
  {
    if files != [] {
      var step := mergeFile(env, files[0]);
      assert StepCode(env, files, mergeFile, 0) == step.r by {
        assert files[..0] == [];
      }
      if step.r != -ENOMEM {
        MergePolicy(step.env, files[1..], mergeFile);
        forall j | 0 <= j < |files| - 1
          ensures StepCode(env, files, mergeFile, j + 1) == StepCode(step.env, files[1..], mergeFile, j)
        {
          StepCodeShift(env, files, mergeFile, j);
        }
        var m := MergeFiles(env, files, mergeFile);
        var rest := MergeFiles(step.env, files[1..], mergeFile);
        if m.r == 0 {
          forall j | 0 <= j < |files| ensures StepCode(env, files, mergeFile, j) != -ENOMEM {
            if j > 0 {
              assert StepCode(env, files, mergeFile, j) == StepCode(step.env, files[1..], mergeFile, j - 1);
            }
          }
        } else {
          var i :| 0 <= i < |files[1..]| && StepCode(step.env, files[1..], mergeFile, i) == -ENOMEM;
          assert StepCode(env, files, mergeFile, i + 1) == -ENOMEM;
          forall j | 0 <= j < |m.merged| - 1 ensures StepCode(env, files, mergeFile, j) != -ENOMEM {
            if j > 0 {
              assert StepCode(env, files, mergeFile, j) == StepCode(step.env, files[1..], mergeFile, j - 1);
            }
          }
        }
      }
    }
  }

  // ---------------------------------------------------------------------
  // The print loop of load_and_print

  /** An entry split at its first `=`: the name before it, the value after it. */
  function SplitAssignment(entry: string): (nv: (string, string))
    requires '=' in entry
    ensures |nv.0| + 1 + |nv.1| == |entry| && entry[|nv.0|] == '='
  {
    var t := IndexOf(entry, '=');
    (entry[..t], entry[t + 1..])
  }

  /** The entry is the name, `=`, and the value, and the name holds no `=`. */
  lemma SplitJoins(entry: string)
    requires '=' in entry
    ensures entry == SplitAssignment(entry).0 + "=" + SplitAssignment(entry).1
    ensures '=' !in SplitAssignment(entry).0
  {
    var t := IndexOf(entry, '=');
    assert entry == entry[..t] + "=" + entry[t + 1..];
  }

  /** The split is the only one whose name has no `=`. */
  lemma SplitUnique(entry: string, name: string, value: string)
    requires entry == name + "=" + value
    requires '=' !in name
    ensures '=' in entry && SplitAssignment(entry) == (name, value)
  {
    assert entry[|name|] == '=';
    forall j | 0 <= j < |name| ensures entry[j] != '=' {
      assert entry[j] == name[j];
    }
    IndexOfUnique(entry, '=', |name|);
    assert entry[..|name|] == name;
    assert entry[|name| + 1..] == value;
  }

  /**
   * The text `printf("%.*s=%s\n", ...)` writes for a line: the name, an `=`,
   * the quoted value and a newline ending the line.
   */
  function Render(line: Line): (text: string)
    ensures |text| == |line.name| + |line.value| + 2
    ensures text[..|line.name|] == line.name && text[|line.name|] == '='
    ensures text[|line.name| + 1..|text| - 1] == line.value && text[|text| - 1] == '\n'
  {
    line.name + "=" + line.value + "\n"
  }

  /**
   * Reading back a printed line at its first `=` gives the name and the
   * quoted value: the name never holds an `=`, the value may.
   */
  lemma RenderSplitsBack(entry: string, q: string)
    requires '=' in entry
    ensures var text := Render(Line(SplitAssignment(entry).0, q));
      '=' in text[..|text| - 1] && SplitAssignment(text[..|text| - 1]) == (SplitAssignment(entry).0, q)
  {
    var name := SplitAssignment(entry).0;
    SplitJoins(entry);
    var text := Render(Line(name, q));
    assert text[..|text| - 1] == name + "=" + q;
    SplitUnique(text[..|text| - 1], name, q);
  }

  /** The outcome of the print loop: the lines printed and the code. */
  datatype Emitted = Emitted(lines: seq<Line>, r: int)

  /**
   * The print loop from entry `k` on: one line per entry until the quoter
   * returns NULL.
   */
  function Emit(env: Env, quote: Quoter, k: nat): (e: Emitted)
    requires AllAssignments(env)
    requires k <= |env|
    ensures |e.lines| <= |env| - k
    ensures e.r == 0 || e.r == -ENOMEM
    decreases |env| - k
  {
    if k == |env| then Emitted([], 0)
    else
      var nv := SplitAssignment(env[k]);
      match quote(k, nv.1)
      case None => Emitted([], -ENOMEM)
      case Some(q) =>
        var rest := Emit(env, quote, k + 1);
        Emitted([Line(nv.0, q)] + rest.lines, rest.r)
  }

  /**
   * `line` is what the print loop prints for entry `j`: the entry's name
   * before its first `=`, and what the quoter returned for the value after
   * it on that entry's call.
   */
  ghost predicate PrintedFor(env: Env, quote: Quoter, j: nat, line: Line) {
    && j < |env| && '=' in env[j]
    && line.name == SplitAssignment(env[j]).0
    && quote(j, SplitAssignment(env[j]).1) == Some(line.value)
  }

  /**
   * What the print loop writes from entry `k` on: with `n` lines printed,
   * line `i` is entry `k + i`'s name and its value as the quoter returned it
   * on that entry's call; the loop succeeds exactly when every entry was
   * printed, and otherwise stopped because the quoter returned NULL for entry
   * `k + n`, the earlier lines staying printed.
   */
  lemma {:induction false} EmitOutput(env: Env, quote: Quoter, k: nat)
    requires AllAssignments(env)
    requires k <= |env|
    ensures var e := Emit(env, quote, k); var n := |e.lines|;
      && (e.r == 0 <==> k + n == |env|)
      && (forall i :: 0 <= i < n ==> PrintedFor(env, quote, k + i, e.lines[i]))
      && (e.r != 0 ==> e.r == -ENOMEM && quote(k + n, SplitAssignment(env[k + n]).1) == None)
    decreases |env| - k
  {
    if k < |env| {
      var nv := SplitAssignment(env[k]);
      var e := Emit(env, quote, k);
      match quote(k, nv.1)
      case None =>
        assert e == Emitted([], -ENOMEM);
      case Some(q) =>
        var rest := Emit(env, quote, k + 1);
        assert e == Emitted([Line(nv.0, q)] + rest.lines, rest.r);
        EmitOutput(env, quote, k + 1);
        forall i | 0 <= i < |e.lines| ensures PrintedFor(env, quote, k + i, e.lines[i]) {
          if i > 0 {
            assert e.lines[i] == rest.lines[i - 1] && k + i == (k + 1) + (i - 1);
          }
        }
    }
  }


  /**
   * The quoter can fail on a later call for a value it quoted before: with
   * two entries of the same value, the first line is printed and the run
   * ends with `-ENOMEM` at the second.
   */
  lemma QuoteFailsOnLaterCall()
    ensures var env := ["A=1", "B=1"];
      AllAssignments(env)
      && var e := Emit(env, (i: nat, v: string) => if i == 0 then Some(v) else None, 0);
      e == Emitted([Line("A", "1")], -ENOMEM)
  {
    var env := ["A=1", "B=1"];
    SplitUnique(env[0], "A", "1");
    SplitUnique(env[1], "B", "1");
  }

  // ---------------------------------------------------------------------
  // load_and_print and main

  /** A run of load_and_print: its code, what it printed, the files it merged. */
  datatype Run = Run(r: int, out: seq<Line>, merged: seq<Path>)

  /** load_and_print composed from its steps. */
  ghost function LoadAndPrintSpec(w: Collaborators): Run
    requires KeepsAssignments(w.mergeFile)
  {
    match EnvironmentDirs(w.confPaths, w.userDir, w.extendFront)
    case Err(code) => Run(code, [], [])
    case Ok(dirs) =>
      var listing := w.listFiles(dirs);
      if listing.r < 0 then Run(listing.r, [], [])
      else
        var m := MergeFiles([], listing.value, w.mergeFile);
        if m.r < 0 then Run(m.r, [], m.merged)
        else
          MergeKeepsAssignments([], listing.value, w.mergeFile);
          var e := Emit(m.env, w.quote, 0);
          Run(e.r, e.lines, m.merged)
  }

  /**
   * A failure to build the search path or to list the files is returned
   * as it is, before any file is merged or anything printed; the files are
   * listed from the per-user directory followed by the system ones.
   */
  lemma SetupFailuresMergeNothing(w: Collaborators)
    requires KeepsAssignments(w.mergeFile)
    ensures var run := LoadAndPrintSpec(w);
            var dirs := EnvironmentDirs(w.confPaths, w.userDir, w.extendFront);
      && (dirs.Err? ==> run == Run(dirs.code, [], []))
      && (dirs.Ok? ==>
            dirs.value == [w.userDir.value] + w.confPaths.value
            && (w.listFiles(dirs.value).r < 0 ==> run == Run(w.listFiles(dirs.value).r, [], [])))
  {
  }

  /**
   * The outcome once the files are listed: they are merged in list order,
   * an `-ENOMEM` from a merge ends the run with that code and prints
   * nothing, and any other merge failure is skipped. When no merge runs out
   * of memory, every file is merged and line `i` of the output is entry `i`
   * of the fully merged block, its name before the first `=` and the
   * quoter's result for the value after it; the run succeeds exactly when
   * every entry is printed, and otherwise the quoter returned NULL for the
   * next entry.
   */
  lemma {:induction false} LoadAndPrintOutcome(w: Collaborators)
    requires KeepsAssignments(w.mergeFile)
    requires EnvironmentDirs(w.confPaths, w.userDir, w.extendFront).Ok?
    requires w.listFiles(EnvironmentDirs(w.confPaths, w.userDir, w.extendFront).value).r >= 0
    ensures var files := w.listFiles(EnvironmentDirs(w.confPaths, w.userDir, w.extendFront).value).value;
            var run := LoadAndPrintSpec(w);
      && run.merged <= files
      && (run.r == 0 || run.r == -ENOMEM)
      && ((exists j :: 0 <= j < |files| && StepCode([], files, w.mergeFile, j) == -ENOMEM) ==>
            run.r == -ENOMEM && run.out == []
            && StepCode([], files, w.mergeFile, |run.merged| - 1) == -ENOMEM)
      && ((forall j :: 0 <= j < |files| ==> StepCode([], files, w.mergeFile, j) != -ENOMEM) ==>
            var env := Replay([], files, w.mergeFile); var n := |run.out|;
            && run.merged == files
            && AllAssignments(env)
            && n <= |env|
            && (run.r == 0 <==> n == |env|)
            && (forall i :: 0 <= i < n ==> PrintedFor(env, w.quote, i, run.out[i]))
            && (run.r != 0 ==> w.quote(n, SplitAssignment(env[n]).1) == None))
  {
    var files := w.listFiles(EnvironmentDirs(w.confPaths, w.userDir, w.extendFront).value).value;
    var m := MergeFiles([], files, w.mergeFile);
    MergePolicy([], files, w.mergeFile);
    if m.r == 0 {
      MergeKeepsAssignments([], files, w.mergeFile);
      var e := Emit(m.env, w.quote, 0);
      assert LoadAndPrintSpec(w) == Run(e.r, e.lines, m.merged);
      EmitOutput(m.env, w.quote, 0);
    } else {
      assert LoadAndPrintSpec(w) == Run(m.r, [], m.merged);
    }
  }

  /** A merge outcome preceded by the files merged before it. */
  function After(done: seq<Path>, m: Merged): Merged {
    m.(merged := done + m.merged)
  }

  /** One step of the merge loop, seen from the files still to go. */
  lemma MergeFilesStep(env: Env, files: seq<Path>, mergeFile: (Env, Path) -> MergeStep, i: nat)
    requires i < |files|
    ensures var step := mergeFile(env, files[i]);
      After(files[..i], MergeFiles(env, files[i..], mergeFile))
        == if step.r == -ENOMEM then Merged(step.env, -ENOMEM, files[..i + 1])
           else After(files[..i + 1], MergeFiles(step.env, files[i + 1..], mergeFile))
  {
    var todo := files[i..];
    assert todo[0] == files[i] && todo[1..] == files[i + 1..];
    assert files[..i + 1] == files[..i] + [files[i]];
    var step := mergeFile(env, files[i]);
    if step.r == -ENOMEM {
      assert MergeFiles(env, todo, mergeFile) == Merged(step.env, -ENOMEM, [files[i]]);
    } else {
      var rest := MergeFiles(step.env, files[i + 1..], mergeFile);
      assert MergeFiles(env, todo, mergeFile) == rest.(merged := [files[i]] + rest.merged);
      assert files[..i] + ([files[i]] + rest.merged) == files[..i + 1] + rest.merged;
    }
  }

  /**
   * The first `STRV_FOREACH` of load_and_print: hand each file to
   * `merge_env_file`, keeping whatever it left in the block, and return at
   * the first `-ENOMEM`. `merged` records the files handed over, in order.
   */
  method MergeLoop(files: seq<Path>, mergeFile: (Env, Path) -> MergeStep)
    returns (env: Env, r: int, ghost merged: seq<Path>)
    ensures env == MergeFiles([], files, mergeFile).env
    ensures r == MergeFiles([], files, mergeFile).r
    ensures merged == MergeFiles([], files, mergeFile).merged
  {
    env, merged := [], [];
    var i := 0;
    while i < |files|
      invariant 0 <= i <= |files|
      invariant merged == files[..i]
      invariant MergeFiles([], files, mergeFile) == After(files[..i], MergeFiles(env, files[i..], mergeFile))
    {
      var step := mergeFile(env, files[i]);
      MergeFilesStep(env, files, mergeFile, i);
      merged := merged + [files[i]];
      env := step.env;
      if step.r == -ENOMEM {
        return env, step.r, merged;
      }
      i := i + 1;
    }
    assert files[..i] == files;
    r := 0;
  }

  /**
   * The second `STRV_FOREACH` of load_and_print: split each entry at its
   * first `=` (`strchr`), quote the value, and print one line, returning
   * `-ENOMEM` (`log_oom`) as soon as the quoter returns NULL.
   */
  method PrintLoop(env: Env, quote: Quoter) returns (r: int, out: seq<Line>)
    requires AllAssignments(env)
    ensures r == Emit(env, quote, 0).r
    ensures out == Emit(env, quote, 0).lines
  {
    out := [];
    var k := 0;
    while k < |env|
      invariant 0 <= k <= |env|
      invariant var rest := Emit(env, quote, k);
        Emit(env, quote, 0) == Emitted(out + rest.lines, rest.r)
    {
      var t := IndexOf(env[k], '=');
      var q := quote(k, env[k][t + 1..]);
      if q.None? {
        return -ENOMEM, out;
      }
      out := out + [Line(env[k][..t], q.value)];
      k := k + 1;
    }
    r := 0;
  }

  /**
   * load_and_print: build the search path, list the files, merge them into
   * a block that starts empty, then print it. `merged` records the files
   * handed to `merge_env_file`, in order.
   */
  method LoadAndPrint(w: Collaborators) returns (r: int, out: seq<Line>, ghost merged: seq<Path>)
    requires KeepsAssignments(w.mergeFile)
    ensures r == LoadAndPrintSpec(w).r
    ensures out == LoadAndPrintSpec(w).out
    ensures merged == LoadAndPrintSpec(w).merged
  {
    var dirs := EnvironmentDirs(w.confPaths, w.userDir, w.extendFront);
    if dirs.Err? {
      return dirs.code, [], [];
    }
    var listing := w.listFiles(dirs.value);
    if listing.r < 0 {
      return listing.r, [], [];
    }
    var env;
    env, r, merged := MergeLoop(listing.value, w.mergeFile);
    if r == -ENOMEM {
      return r, [], merged;
    }
    MergeKeepsAssignments([], listing.value, w.mergeFile);
    r, out := PrintLoop(env, w.quote);
  }

  /** The exit status main derives from load_and_print's code. */
  function ExitStatus(r: int): (status: int)
    ensures status == EXIT_SUCCESS || status == EXIT_FAILURE
    ensures status == EXIT_SUCCESS <==> r >= 0
  {
    if r < 0 then EXIT_FAILURE else EXIT_SUCCESS
  }

  /**
   * main: any argument beyond the program name is refused before anything
   * is loaded; otherwise the run succeeds exactly when load_and_print
   * returns a non-negative code.
   */
  method GeneratorMain(argc: int, w: Collaborators) returns (status: int, out: seq<Line>, ghost merged: seq<Path>)
    requires argc <= 1 ==> KeepsAssignments(w.mergeFile)
    ensures status == EXIT_SUCCESS || status == EXIT_FAILURE
    ensures argc > 1 ==> status == EXIT_FAILURE && out == [] && merged == []
    ensures argc <= 1 ==>
      && (status == EXIT_SUCCESS <==> LoadAndPrintSpec(w).r >= 0)
      && out == LoadAndPrintSpec(w).out
      && merged == LoadAndPrintSpec(w).merged
  {
    if argc > 1 {
      return EXIT_FAILURE, [], [];
    }
    var r;
    r, out, merged := LoadAndPrint(w);
    status := ExitStatus(r);
  }
}
