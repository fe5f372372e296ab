/** The script itself: the module-level state of src/index.js and the
    functions that change it. `flags` is the shared argument array that
    `removeFlag` splices; `stack`, `stage` and `stacks` are the fields of
    the `args` object; `output` collects what the run does, in order
    (commands handed to the shell and diagnostics printed). */
module Program {
  import opened Wrappers
  import opened Sequences
  import opened Flags
  import opened Dispatch

  class Cli {
    var flags: seq<string>
    const command: string
    var stack: Option<string>
    var stage: Option<string>
    var stacks: seq<string>
    var output: seq<Event>

    /** Lines 7-13: split off the sub-command and read `--stack` and the
        stage from the flags as they are at start-up. */
    constructor (command: string, argv: seq<string>)
      ensures flags == argv && this.command == command
      ensures stack == GetValue(argv, "--stack") && stage == GetStage(argv)
      ensures stacks == [] && output == []
    {
      flags := argv;
      this.command := command;
      stack := GetValue(argv, "--stack");
      stage := GetStage(argv);
      stacks := [];
      output := [];
    }

    /** The `args` object still describes the current flags. */
    predicate Parsed()
      reads this
    {
      stack == GetValue(flags, "--stack") && stage == GetStage(flags)
    }

    /** `removeFlag(flag)`: if `flag` occurs and a token follows its first
        occurrence, splice both out in place. */
    method RemoveFlag(flag: string)
      modifies this`flags
      ensures flags == Spliced(old(flags), flag)
    {
      if flag in flags {
        var flagIndex := IndexOf(flags, flag);
        var valueIndex := flagIndex + 1;
        if |flags| > valueIndex {
          SplicedAtFirst(flags, flag, flagIndex);
          flags := flags[..flagIndex] + flags[flagIndex + 2..];
        } else {
          SplicedUnchanged(flags, flag);
        }
      } else {
        SplicedUnchanged(flags, flag);
      }
    }

    /** `execute(stackName, command, forwarded)`. */
    method Execute(paths: set<string>, stackName: string, forwarded: seq<string>)
      modifies this`output
      ensures output == old(output) + [StackEvent(paths, stackName, command, forwarded)]
    {
      if stackName !in paths {
        output := output + [Reported(MissingFolder(stackName))];
        return;
      }
      output := output + [Executed(stackName, CommandText(command, forwarded))];
    }

    /** `haveError()`: report the first failing check and say whether
        there was one. */
    method HaveError(env: Env) returns (failed: bool)
      modifies this`output
      ensures failed <==> Validate(env, command, stage).Some?
      ensures failed ==> output == old(output) + [Reported(Validate(env, command, stage).value)]
      ensures !failed ==> output == old(output)
    {
      failed := true;
      if !env.slsOnPath {
        output := output + [Reported(MissingSls)];
        return;
      }
      if command !in ValidCommands {
        output := output + [Reported(UnknownCommand(command))];
        return;
      }
      if !Truthy(stage) {
        output := output + [Reported(MissingStage)];
        return;
      }
      if EnvFile(stage.value) !in env.paths {
        output := output + [Reported(MissingEnvFile(stage.value))];
        return;
      }
      failed := false;
    }

    /** `executeCommands()`: one run on the `--stack` stack (after cutting
        the `--stack` pair out of the flags), or one run per segment of
        `STACKS`, in order. */
    method ExecuteCommands(env: Env)
      modifies this`flags, this`stacks, this`output
      ensures output == old(output) + Dispatched(env, command, stack, old(flags))
      ensures flags == if Truthy(stack) then Spliced(old(flags), "--stack") else old(flags)
      ensures stacks == if !Truthy(stack) && Truthy(env.stacksVar)
                        then Split(env.stacksVar.value, ',') else old(stacks)
    {
      if Truthy(stack) {
        RemoveFlag("--stack");
        Execute(env.paths, stack.value, flags);
        return;
      }
      if !Truthy(env.stacksVar) {
        output := output + [Reported(MissingStacks)];
        return;
      }
      stacks := Split(env.stacksVar.value, ',');
      var names, forwarded := stacks, flags;
      var index := 0;
      while index < |names|
        invariant 0 <= index <= |names|
        invariant flags == forwarded && stacks == names
        invariant output == old(output) + StackRuns(env.paths, names[..index], command, forwarded)
      {
        StackRunsSnoc(env.paths, names[..index], names[index], command, forwarded);
        assert names[..index + 1] == names[..index] + [names[index]];
        Execute(env.paths, names[index], forwarded);
        index := index + 1;
      }
      assert names[..index] == names;
    }

    /** Lines 128-129: dispatch only when no check failed. The run as a
        whole produces exactly the events `Plan` describes for the flags
        the script started with. */
    method Run(env: Env)
      requires Parsed()
      modifies this`flags, this`stacks, this`output
      ensures output == old(output) + Plan(env, command, old(flags))
      ensures flags == if Validate(env, command, stage).None? && Truthy(stack)
                       then Spliced(old(flags), "--stack") else old(flags)
      ensures stacks == if Validate(env, command, stage).None? && !Truthy(stack) && Truthy(env.stacksVar)
                        then Split(env.stacksVar.value, ',') else old(stacks)
    {
      ghost var plan := Plan(env, command, flags);
      PlanFromParsed(env, command, flags, stack, stage);
      var failed := HaveError(env);
      if !failed {
        ExecuteCommands(env);
      }
      assert output == old(output) + plan;
    }
  }
}
