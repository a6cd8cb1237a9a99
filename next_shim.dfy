/**
 * The `next` command shim: `export` is emulated by building when the static output is missing
 * and copying it to the requested directory; anything else is forwarded to the real command. The
 * child processes and the existence checks are outcomes handed in; the build, the copy and the
 * forwarded command are actions recorded.
 */
module NextShim {
  import opened Wrappers
  import opened JsString
  import opened PosixPath

  /** The options that name the export directory. */
  predicate IsOutFlag(a: string)
  {
    a == "-o" || a == "--out" || a == "--output" || a == "--outdir"
  }

  /** `args.findIndex(isOutFlag)`. */
  function OutFlagIndex(args: seq<string>): (r: int)
    ensures -1 <= r < |args|
    ensures r == -1 <==> forall k :: 0 <= k < |args| ==> !IsOutFlag(args[k])
    ensures r >= 0 ==> IsOutFlag(args[r]) && forall k :: 0 <= k < r ==> !IsOutFlag(args[k])
  {
    if |args| == 0 then -1
    else if IsOutFlag(args[0]) then 0
    else
      var r := OutFlagIndex(args[1..]);
      assert forall k :: 1 <= k < |args| ==> args[k] == args[1..][k - 1];
      if r == -1 then -1 else r + 1
  }

  /** `args[i] && !args[i].startsWith('-')`: present, non-empty and not an option. */
  predicate Usable(args: seq<string>, i: int)
  {
    0 <= i < |args| && args[i] != "" && !StartsWith(args[i], "-")
  }

  /**
   * The export directory: the value after the first output option when it is usable, else a
   * usable first argument after `export`, else `out`.
   */
  function ExportTarget(args: seq<string>): (t: string)
    ensures OutFlagIndex(args) != -1 && Usable(args, OutFlagIndex(args) + 1) ==> t == args[OutFlagIndex(args) + 1]
    ensures !(OutFlagIndex(args) != -1 && Usable(args, OutFlagIndex(args) + 1)) && Usable(args, 1) ==> t == args[1]
    ensures !(OutFlagIndex(args) != -1 && Usable(args, OutFlagIndex(args) + 1)) && !Usable(args, 1) ==> t == "out"
    ensures t != "" && !StartsWith(t, "-")
  {
    var k := OutFlagIndex(args);
    if k != -1 && Usable(args, k + 1) then args[k + 1]
    else if Usable(args, 1) then args[1]
    else assert "out"[..1] == "o"; "out"
  }

  /** `path.resolve(root, t)` for an absolute `root`. */
  function ResolveFrom(root: string, t: string): string
  {
    Dir(Stack(if Absolute(t) then t else root + "/" + t))
  }

  /** `path.join(root, 'out')`: where `next build` writes the static output. */
  function DefaultOut(root: string): string
  {
    PathJoin(root, "out")
  }

  /** Without a target argument the output directory is the default one, and nothing is copied. */
  lemma DefaultTargetIsDefaultOut(root: string)
    requires Absolute(root)
    ensures ExportTarget(["export"]) == "out"
    ensures ResolveFrom(root, "out") == DefaultOut(root)
  {
    var y := root + "/" + "out";
    AppendName(root, "out");
    StackNames(y);
    JoinNamesEmpty(Stack(y));
    assert Normalize(y) == "/" + Join(Stack(y), '/');
  }

  /**
   * The value after `-o` wins over the first argument; when that argument is itself an output
   * option, the value after it is taken to be `-o`, which is refused, and the default remains.
   */
  lemma OutFlagWins(dir: string, first: string)
    requires dir != "" && !StartsWith(dir, "-")
    ensures ExportTarget(["export", first, "-o", dir]) == (if IsOutFlag(first) then "out" else dir)
  {
    var args := ["export", first, "-o", dir];
    assert args[1..] == [first, "-o", dir] && args[1..][1..] == ["-o", dir];
    if !IsOutFlag(first) {
      assert IsOutFlag(args[2]) && !IsOutFlag(args[0]) && !IsOutFlag(args[1]);
      assert OutFlagIndex(args) == 2;
    } else {
      assert OutFlagIndex(args) == 1;
      assert args[2][..1] == "-" && first[..1] == "-";
    }
  }

  /**
   * The target and the default output lie one inside the other. Removing the target then either
   * removes the output with it, so the copy finds no source, or leaves a target below the output,
   * which `cpSync` refuses as a copy into its own subdirectory; the copy throws either way.
   */
  predicate CopyRefused(target: string, out: string)
  {
    Inside(target, out) || Inside(out, target)
  }

  /** `export out/sub` asks for a copy of the output into its own subdirectory. */
  lemma CopyIntoOutputRefused(root: string)
    requires Absolute(root)
    ensures ResolveFrom(root, "out/sub") != DefaultOut(root)
    ensures CopyRefused(ResolveFrom(root, "out/sub"), DefaultOut(root))
  {
    var rs := Stack(root);
    var y := root + "/" + "out";
    AppendName(root, "out");
    AppendName(y, "sub");
    assert root + "/" + "out/sub" == y + "/" + "sub";
    StackNames(y);
    DefaultTargetIsDefaultOut(root);
    var d := rs + ["out"];
    JoinAppend(d, ["sub"], '/');
    assert Dir(d + ["sub"]) == Dir(d) + "/" + "sub";
    InsideSpelled(d, ["sub"], "", Dir(d + ["sub"]));
  }

  /** `export .` names the project root, which holds the output. */
  lemma CopyOverOutputRefused(root: string)
    requires Absolute(root)
    ensures ResolveFrom(root, ".") != DefaultOut(root)
    ensures CopyRefused(ResolveFrom(root, "."), DefaultOut(root))
  {
    var rs := Stack(root);
    AppendDot(root);
    var y := root + "/" + "out";
    AppendName(root, "out");
    StackNames(root);
    DefaultTargetIsDefaultOut(root);
    InsideSpelled(rs, ["out"], "", Dir(rs + ["out"]));
    if rs != [] {
      JoinAppend(rs, ["out"], '/');
      assert |Dir(rs + ["out"])| > |Dir(rs)|;
    } else {
      assert Dir(rs + ["out"]) == "/out";
    }
  }

  /** Writing `/.` after an absolute path leaves its segments as they are. */
  lemma AppendDot(p: string)
    requires Absolute(p)
    ensures Stack(p + "/" + ".") == Stack(p)
  {
    SplitConcat(p, ".", '/');
    SplitFree(".", '/');
    assert p + "/" + "." == p + ['/'] + ".";
    ResolveAppend([], Split(p, '/'), ["."], false);
  }

  /** What the child processes and the file system answer during one run. */
  datatype Env = Env(cliResolves: bool, outExists: bool, buildStatus: Option<int>, outExistsAfterBuild: bool,
                     nextStatus: Option<int>, nextThrew: bool)

  /**
   * What the shim sets off: `next build`; replacing a directory by a copy of the output; removing
   * and recreating a directory whose copy then throws; or `next`.
   */
  datatype Action = Build | Replace(target: string) | Clear(target: string) | RunNext(args: seq<string>)

  /** The actions in order, and the exit status. */
  datatype Run = Run(actions: seq<Action>, exit: int)

  predicate IsExport(args: seq<string>)
  {
    |args| > 0 && args[0] == "export"
  }

  /** `(buildResult.status ?? 0) !== 0`: a build that ended with a failing status. */
  predicate BuildFailed(status: Option<int>)
  {
    status.Some? && status.value != 0
  }

  /** The static output is there after the build step. */
  predicate OutputReady(env: Env)
  {
    env.outExists || (env.cliResolves && !BuildFailed(env.buildStatus) && env.outExistsAfterBuild)
  }

  /** The shim: the export emulation or the forwarding to `next`. */
  method Shim(args: seq<string>, root: string, env: Env) returns (run: Run)
    ensures IsExport(args) ==> (Build in run.actions <==> !env.outExists && env.cliResolves)
    ensures IsExport(args) && !env.outExists && !env.cliResolves ==> run == Run([], 1)
    ensures IsExport(args) && !env.outExists && env.cliResolves && BuildFailed(env.buildStatus) ==>
      run == Run([Build], env.buildStatus.value)
    ensures IsExport(args) && !OutputReady(env) ==>
      run.exit != 0 && forall k :: 0 <= k < |run.actions| ==> !run.actions[k].Replace?
    ensures IsExport(args) && OutputReady(env) ==>
      var t, pre := ResolveFrom(root, ExportTarget(args)), if env.outExists then [] else [Build];
      if t == DefaultOut(root) then run == Run(pre, 0)
      else if CopyRefused(t, DefaultOut(root)) then run == Run(pre + [Clear(t)], 1)
      else run == Run(pre + [Replace(t)], 0)
    ensures !IsExport(args) && !env.cliResolves ==> run == Run([], 1)
    ensures !IsExport(args) && env.cliResolves ==>
      run.actions == [RunNext(args)]
      && run.exit == (if env.nextStatus.Some? then env.nextStatus.value else if env.nextThrew then 1 else 0)
  {
    if !IsExport(args) {
      run := Forward(args, env);
      return;
    }
    run := Export(args, root, env);
  }

  /** `runNext(args)`: the exit status is the child's, or 1 when it threw, or 0. */
  method Forward(args: seq<string>, env: Env) returns (run: Run)
    ensures !env.cliResolves ==> run == Run([], 1)
    ensures env.cliResolves ==>
      run.actions == [RunNext(args)]
      && run.exit == (if env.nextStatus.Some? then env.nextStatus.value else if env.nextThrew then 1 else 0)
  {
    if !env.cliResolves {
      return Run([], 1);
    }
    var actions := [RunNext(args)];
    if env.nextStatus.Some? {
      return Run(actions, env.nextStatus.value);
    }
    if env.nextThrew {
      return Run(actions, 1);
    }
    return Run(actions, 0);
  }

  /** The `export` emulation. */
  method Export(args: seq<string>, root: string, env: Env) returns (run: Run)
    ensures Build in run.actions <==> !env.outExists && env.cliResolves
    ensures !env.outExists && !env.cliResolves ==> run == Run([], 1)
    ensures !env.outExists && env.cliResolves && BuildFailed(env.buildStatus) ==> run == Run([Build], env.buildStatus.value)
    ensures !OutputReady(env) ==> run.exit != 0 && forall k :: 0 <= k < |run.actions| ==> !run.actions[k].Replace?
    ensures OutputReady(env) ==>
      var t, pre := ResolveFrom(root, ExportTarget(args)), if env.outExists then [] else [Build];
      if t == DefaultOut(root) then run == Run(pre, 0)
      else if CopyRefused(t, DefaultOut(root)) then run == Run(pre + [Clear(t)], 1)
      else run == Run(pre + [Replace(t)], 0)
  {
    var targetDir := "out";
    var optionIndex := OutFlagIndex(args);
    if optionIndex != -1 && Usable(args, optionIndex + 1) {
      targetDir := args[optionIndex + 1];
    } else if Usable(args, 1) {
      targetDir := args[1];
    }
    assert targetDir == ExportTarget(args);
    var defaultOut := DefaultOut(root);
    var resolvedTarget := ResolveFrom(root, targetDir);
    var pre: seq<Action> := if env.outExists then [] else [Build];
    var actions: seq<Action> := [];
    var present := env.outExists;
    if !present {
      if !env.cliResolves {
        return Run(actions, 1);
      }
      actions := actions + [Build];
      if BuildFailed(env.buildStatus) {
        return Run(actions, env.buildStatus.value);
      }
      present := env.outExistsAfterBuild;
    }
    if !present {
      return Run(actions, 1);
    }
    assert actions == pre;
    if resolvedTarget != defaultOut {
      if CopyRefused(resolvedTarget, defaultOut) {
        return Run(actions + [Clear(resolvedTarget)], 1);
      }
      actions := actions + [Replace(resolvedTarget)];
    }
    return Run(actions, 0);
  }
}
