/** What one run of the dispatcher does (src/index.js:59-129), as
    functions of its inputs. The outside world is the `Env` value: whether
    `sls` is on the search path, which relative paths exist, and the value
    of `STACKS` once the stage's env file has been loaded. What the run
    does is a list of events: one `Executed` per `sls` invocation (the
    stack it runs in and the command text handed to the shell) and one
    `Reported` per diagnostic. */
module Dispatch {
  import opened Wrappers
  import opened Sequences
  import opened Flags

  /** The sub-commands the tool forwards (src/index.js:8). */
  const ValidCommands: seq<string> := ["deploy", "remove", "invoke"]

  /** One tag per diagnostic the source prints. */
  datatype Diagnostic =
    | MissingSls
    | UnknownCommand(command: string)
    | MissingStage
    | MissingEnvFile(stage: string)
    | MissingStacks
    | MissingFolder(stackName: string)

  datatype Event =
    | Executed(stackName: string, commandText: string)
    | Reported(diagnostic: Diagnostic)

  /** `slsOnPath`: `shell.which('sls')` finds the binary. `paths`: the
      relative paths for which `fs.existsSync(path.resolve(p))` holds.
      `stacksVar`: `process.env.STACKS` after the env file is loaded. */
  datatype Env = Env(slsOnPath: bool, paths: set<string>, stacksVar: Option<string>)

  function EnvFile(stage: string): string
  {
    ".env." + stage
  }

  /** `haveError()`: the four preconditions, checked in order; the first
      that fails is reported and the later ones are not looked at. `None`
      means every check passed. */
  function Validate(env: Env, command: string, stage: Option<string>): (r: Option<Diagnostic>)
    ensures r == None <==>
              env.slsOnPath && command in ValidCommands && Truthy(stage)
              && EnvFile(stage.value) in env.paths
    ensures r == Some(MissingSls) <==> !env.slsOnPath
    ensures r == Some(UnknownCommand(command)) <==> env.slsOnPath && command !in ValidCommands
    ensures r == Some(MissingStage) <==>
              env.slsOnPath && command in ValidCommands && !Truthy(stage)
    ensures r.Some? && r.value.MissingEnvFile? <==>
              env.slsOnPath && command in ValidCommands && Truthy(stage)
              && EnvFile(stage.value) !in env.paths
    ensures r.Some? && r.value.MissingEnvFile? ==> r.value.stage == stage.value
  {
    if !env.slsOnPath then Some(MissingSls)
    else if command !in ValidCommands then Some(UnknownCommand(command))
    else if !Truthy(stage) then Some(MissingStage)
    else if EnvFile(stage.value) !in env.paths then Some(MissingEnvFile(stage.value))
    else None
  }

  /** The text `execute` hands to the shell: `sls ${[command, flags].join(' ')} --colors always`.
      The forwarded flags are an array inside the joined array, so they
      render joined by commas, not spaces. */
  function CommandText(command: string, forwarded: seq<string>): string
  {
    "sls " + command + " " + Join(forwarded, ',') + " --colors always"
  }

  /** Reads the forwarded flags back out of a command text for `command`. */
  function ForwardedOf(command: string, text: string): Option<seq<string>>
  {
    var prefix := "sls " + command + " ";
    var suffix := " --colors always";
    if |prefix| + |suffix| <= |text| && text[..|prefix|] == prefix
       && text[|text| - |suffix|..] == suffix
    then Some(Split(text[|prefix|..|text| - |suffix|], ','))
    else None
  }

  /** The command text carries the sub-command and every forwarded flag,
      in order: when no flag holds a comma, the flags can be read back. */
  lemma CommandTextRoundTrip(command: string, forwarded: seq<string>)
    requires |forwarded| >= 1
    requires forall k :: 0 <= k < |forwarded| ==> ',' !in forwarded[k]
    ensures ForwardedOf(command, CommandText(command, forwarded)) == Some(forwarded)
  {
    var prefix := "sls " + command + " ";
    var suffix := " --colors always";
    var middle := Join(forwarded, ',');
    var text := CommandText(command, forwarded);
    assert text == prefix + middle + suffix;
    assert text[..|prefix|] == prefix;
    assert text[|text| - |suffix|..] == suffix;
    assert text[|prefix|..|text| - |suffix|] == middle;
    SplitJoin(forwarded, ',');
  }

  /** Two forwarded flags are separated by a comma, not a space: `--stage`
      and `dev` reach `sls` as the single word `--stage,dev`. */
  lemma CommandTextJoinsFlagsWithCommas(command: string, a: string, b: string)
    ensures CommandText(command, [a, b]) == "sls " + command + " " + a + "," + b + " --colors always"
  {
    assert Join([a, b], ',') == a + [','] + b;
  }

  /** `execute(stackName, command, flags)`: a missing folder is reported
      and nothing runs; otherwise `sls` runs once in that stack. */
  function StackEvent(paths: set<string>, stackName: string, command: string, forwarded: seq<string>): Event
  {
    if stackName !in paths then Reported(MissingFolder(stackName))
    else Executed(stackName, CommandText(command, forwarded))
  }

  /** The loop of `executeCommands` over the stack list: one `execute` per
      name, in list order, each giving exactly one event. */
  function StackRuns(paths: set<string>, stacks: seq<string>, command: string, forwarded: seq<string>): (events: seq<Event>)
    ensures |events| == |stacks|
    ensures forall k :: 0 <= k < |stacks| ==> events[k] == StackEvent(paths, stacks[k], command, forwarded)
  {
    if |stacks| == 0 then []
    else [StackEvent(paths, stacks[0], command, forwarded)] + StackRuns(paths, stacks[1..], command, forwarded)
  }

  /** One more stack at the end of the list adds its one event at the end. */
  lemma StackRunsSnoc(paths: set<string>, stacks: seq<string>, name: string, command: string, forwarded: seq<string>)
    ensures StackRuns(paths, stacks + [name], command, forwarded)
         == StackRuns(paths, stacks, command, forwarded) + [StackEvent(paths, name, command, forwarded)]
  {
  }

  /** `executeCommands()` for the `args.stack` value `stack` and the
      flags `argv`: one `execute` on the `--stack` stack with the
      `--stack` pair cut out of the forwarded flags, or, when that value
      is falsy, one `execute` per segment of `STACKS` with the flags as
      they are. */
  function Dispatched(env: Env, command: string, stack: Option<string>, argv: seq<string>): seq<Event>
  {
    if Truthy(stack) then
      [StackEvent(env.paths, stack.value, command, Spliced(argv, "--stack"))]
    else if !Truthy(env.stacksVar) then [Reported(MissingStacks)]
    else StackRuns(env.paths, Split(env.stacksVar.value, ','), command, argv)
  }

  /** The whole run for sub-command `command` and flag list `argv`
      (src/index.js:7-13 and 128-129): read `--stack` and the stage from
      the original flags, validate, then dispatch. */
  function Plan(env: Env, command: string, argv: seq<string>): seq<Event>
  {
    var failure := Validate(env, command, GetStage(argv));
    if failure.Some? then [Reported(failure.value)]
    else Dispatched(env, command, GetValue(argv, "--stack"), argv)
  }

  /** `Plan` in terms of the parsed `--stack` value and stage. */
  lemma PlanFromParsed(env: Env, command: string, argv: seq<string>, stack: Option<string>, stage: Option<string>)
    requires stack == GetValue(argv, "--stack") && stage == GetStage(argv)
    ensures Plan(env, command, argv)
         == if Validate(env, command, stage).Some? then [Reported(Validate(env, command, stage).value)]
            else Dispatched(env, command, stack, argv)
  {
  }

  /** No command runs unless all four checks pass, and a failed check is
      the only thing reported. */
  lemma RejectedRunsNothing(env: Env, command: string, argv: seq<string>)
    requires Validate(env, command, GetStage(argv)).Some?
    ensures Plan(env, command, argv) == [Reported(Validate(env, command, GetStage(argv)).value)]
  {
  }

  /** Every command that runs was preceded by a passing validation: `sls`
      is on the path, the sub-command is known, the stage is non-empty and
      its env file exists. */
  lemma ExecutionNeedsValidation(env: Env, command: string, argv: seq<string>, k: int)
    requires 0 <= k < |Plan(env, command, argv)| && Plan(env, command, argv)[k].Executed?
    ensures env.slsOnPath && command in ValidCommands
    ensures Truthy(GetStage(argv)) && EnvFile(GetStage(argv).value) in env.paths
  {
  }

  /** With a non-empty `--stack` value, exactly one `execute` happens, on
      that stack, with the `--stack` pair cut out of the forwarded flags;
      `STACKS` is never read. */
  lemma ExplicitStackPlan(env: Env, command: string, argv: seq<string>, i: int)
    requires Validate(env, command, GetStage(argv)).None?
    requires FirstAt(argv, "--stack", i) && i + 1 < |argv| && argv[i + 1] != ""
    ensures Plan(env, command, argv)
         == [StackEvent(env.paths, argv[i + 1], command, argv[..i] + argv[i + 2..])]
    ensures forall other :: Plan(env.(stacksVar := other), command, argv) == Plan(env, command, argv)
  {
    SplicedAtFirst(argv, "--stack", i);
  }

  /** An empty `--stack` value is falsy: the run falls back to `STACKS`
      and the `--stack ""` pair stays in the forwarded flags. */
  lemma EmptyStackValueIgnored(env: Env, command: string, argv: seq<string>, i: int)
    requires Validate(env, command, GetStage(argv)).None?
    requires FirstAt(argv, "--stack", i) && i + 1 < |argv| && argv[i + 1] == ""
    requires Truthy(env.stacksVar)
    ensures Plan(env, command, argv) == StackRuns(env.paths, Split(env.stacksVar.value, ','), command, argv)
  {
  }

  /** Without a usable `--stack` and with `STACKS` unset or empty, nothing
      runs and the missing variable is reported. */
  lemma NoStacksPlan(env: Env, command: string, argv: seq<string>)
    requires Validate(env, command, GetStage(argv)).None?
    requires !Truthy(GetValue(argv, "--stack")) && !Truthy(env.stacksVar)
    ensures Plan(env, command, argv) == [Reported(MissingStacks)]
  {
  }

  /** Without a usable `--stack`, one `execute` per comma-separated
      segment of `STACKS`: as many as there are commas plus one, in order,
      duplicates kept, each running `sls` with the unmodified flags when
      its folder exists and reporting the folder otherwise. */
  lemma FanOutPlan(env: Env, command: string, argv: seq<string>)
    requires Validate(env, command, GetStage(argv)).None?
    requires !Truthy(GetValue(argv, "--stack")) && Truthy(env.stacksVar)
    ensures |Plan(env, command, argv)| == multiset(env.stacksVar.value)[','] + 1
    ensures forall k :: 0 <= k < |Plan(env, command, argv)| ==>
              var name := Split(env.stacksVar.value, ',')[k];
              Plan(env, command, argv)[k]
              == if name in env.paths then Executed(name, CommandText(command, argv))
                 else Reported(MissingFolder(name))
  {
    SplitCount(env.stacksVar.value, ',');
  }

  /** A `STACKS` value written as the names `names` joined by commas runs
      exactly those names, in that order. */
  lemma FanOutOverNames(env: Env, command: string, argv: seq<string>, names: seq<string>)
    requires Validate(env, command, GetStage(argv)).None?
    requires !Truthy(GetValue(argv, "--stack"))
    requires |names| >= 1 && forall k :: 0 <= k < |names| ==> ',' !in names[k]
    requires env.stacksVar == Some(Join(names, ',')) && Join(names, ',') != ""
    ensures Plan(env, command, argv) == StackRuns(env.paths, names, command, argv)
  {
    SplitJoin(names, ',');
  }
}
