# Multi-stack Serverless CLI: a Dafny model of the dispatcher

The tool is a small Node command-line front end for the Serverless
Framework. It is called as `<program> <command> [flags...]`. It checks a
few preconditions. Then it runs `sls <command> ... --colors always` once
in the folder named by `--stack`, or once in each folder listed,
comma-separated, in the `STACKS` variable of the stage's `.env.<stage>`
file.

The model covers all of `src/index.js`:

- `sequences.dfy` (module `Sequences`): the JavaScript built-ins the
  script uses. These are `indexOf` with `includes` as its guard,
  `Array.prototype.join` and `String.prototype.split` with a
  one-character separator.
- `flags.dfy` (module `Flags`): `getValue`, the list `removeFlag` leaves
  behind (`Spliced`), `getStage`, and JavaScript truthiness of a string
  that may be `undefined`.
- `dispatch.dfy` (module `Dispatch`): `haveError` as `Validate`, the
  command text, `execute` as `StackEvent`, the loop of `executeCommands`
  as `StackRuns`, and the whole run as `Plan`. The lemmas about `Plan`
  state what the run does in each case.
- `cli.dfy` (module `Program`): class `Cli` holds the script's
  module-level state. That is the shared `flags` array, the fields of
  `args`, and an `output` trace of what the run does. Its methods are
  `removeFlag`, `execute`, `haveError`, `executeCommands` and the
  top-level gate. Each is proved against the functions above.
- `wrappers.dfy` (module `Wrappers`): `Option`, standing for a value
  that may be `undefined`.

The outside world is passed in as an `Env` value with three parts:

- whether `sls` is on the search path;
- the set of relative paths that exist;
- the value of `STACKS` after the env file is loaded.

A run produces a list of events. An `Executed(stack, text)` event is one
`shell.exec` of `text` in `stack`. A `Reported(tag)` event is one printed
diagnostic.

Points where the code behaves in ways a reader might not expect, all
modelled as the code has them:

- There is no `REGIONS` or `--region` fan-out, because the code has none.
- The command text is `"sls " + command + " " + flags.join(",") + " --colors always"`.
  The flags array is an element of `[command, flags]`, so `join(' ')`
  renders it with commas. For example, `["--stage", "dev"]` gives
  `sls deploy --stage,dev --colors always`.
- The stage falls back to `-s` whenever the `--stage` value is falsy.
  That includes an empty `--stage` value, not only a missing one.
- An empty `--stack` value is falsy. The run then falls back to `STACKS`
  and forwards the `--stack ""` pair unchanged.

## Model

| member | source | states |
|---|---|---|
| `Sequences.IndexOf` | src/index.js:20-21 | for an element that occurs, the result is the index of its first occurrence |
| `Sequences.FirstAtUnique` | src/index.js:21 | the first occurrence of an element is unique, so `indexOf` is determined |
| `Sequences.Split` | src/index.js:121 | `split(',')` yields at least one part and no part contains the separator |
| `Sequences.SplitCount` | src/index.js:121-125 | the number of parts, and so the number of `execute` calls, is the number of commas plus one |
| `Sequences.JoinSplit` | src/index.js:121 | joining the parts of a split with the separator gives the text back: nothing is lost or added |
| `Sequences.SplitJoin` | src/index.js:121 | splitting names joined by commas gives back exactly those names in order, duplicates and empty names kept |
| `Flags.GetValue` | src/index.js:19-29 | absent flag gives undefined; otherwise the token after the first occurrence, or undefined when that occurrence is the last token |
| `Flags.SplicedAtFirst` | src/index.js:35-44 | with a token after the first occurrence at `i`, the result is the list without positions `i` and `i+1`: length drops by 2 and the rest keep their order |
| `Flags.SplicedUnchanged` | src/index.js:35-44 | an absent flag, or one whose first occurrence is the last token, leaves the list unchanged |
| `Flags.StageFromLongFlag` | src/index.js:49-57 | a non-empty value after the first `--stage` is the stage, whatever `-s` holds |
| `Flags.StageFallsBack` | src/index.js:49-57 | a missing, last-token or empty `--stage` value makes the stage the value of `-s` |
| `Flags.StageAbsent` | src/index.js:49-57 | with neither `--stage` nor `-s` there is no stage |
| `Flags.EmptyStageFallsThrough` | src/index.js:52-53 | `--stage "" -s dev` resolves to `dev` |
| `Dispatch.Validate` | src/index.js:80-102 | checks in a fixed order (sls, command in {deploy, remove, invoke}, truthy stage, `.env.<stage>` exists); each error occurs exactly when all earlier checks pass and its own fails; no error exactly when all four pass |
| `Dispatch.CommandTextRoundTrip` | src/index.js:73 | the command text is `sls <command> `, the comma-joined flags, then ` --colors always`; the forwarded flags can be read back from it in order |
| `Dispatch.CommandTextJoinsFlagsWithCommas` | src/index.js:73 | two forwarded flags `a`, `b` reach the shell as the one word `a,b` (so `--stage dev` becomes `--stage,dev`), not as two words |
| `Dispatch.StackRuns` | src/index.js:123-125 | one event per listed stack, in list order; event `k` is the `execute` outcome for stack `k` |
| `Dispatch.StackRunsSnoc` | src/index.js:123-125 | one more loop iteration appends exactly that stack's event |
| `Dispatch.RejectedRunsNothing` | src/index.js:128-129 | when a check fails, the run is that one diagnostic and nothing executes |
| `Dispatch.ExecutionNeedsValidation` | src/index.js:80-129 | every executed command implies sls present, a valid command, a truthy stage and an existing env file |
| `Dispatch.ExplicitStackPlan` | src/index.js:108-112 | a non-empty `--stack` value gives exactly one `execute` on it, with the `--stack` pair cut out of the flags, whatever `STACKS` holds |
| `Dispatch.EmptyStackValueIgnored` | src/index.js:108-125 | an empty `--stack` value falls through to `STACKS`, and the flags are forwarded unchanged |
| `Dispatch.NoStacksPlan` | src/index.js:116-119 | without a usable `--stack` and with `STACKS` unset or empty, nothing executes and the missing variable is reported |
| `Dispatch.FanOutPlan` | src/index.js:64-125 | with `STACKS` set: commas-plus-one events in segment order; each runs the command text with the unmodified flags when its folder exists, and reports the folder otherwise |
| `Dispatch.FanOutOverNames` | src/index.js:121-125 | a `STACKS` value written from names runs exactly those names in that order |
| `Program.Cli.constructor` | src/index.js:7-13 | `args.stack` and `args.stage` are read from the flags as they are at start-up; `stacks` starts empty |
| `Program.Cli.RemoveFlag` | src/index.js:35-44 | the new `flags` is `Spliced` of the old one |
| `Program.Cli.Execute` | src/index.js:64-75 | appends exactly one event: the missing-folder report, or the command run in that stack |
| `Program.Cli.HaveError` | src/index.js:80-102 | returns true exactly when `Validate` finds an error, and appends that one diagnostic |
| `Program.Cli.ExecuteCommands` | src/index.js:107-126 | appends the `Dispatched` events; `flags` loses the `--stack` pair only on the explicit-stack path; `stacks` is the split `STACKS` only on the fan-out path |
| `Program.Cli.Run` | src/index.js:128-129 | starting from the parsed state, the appended events are exactly `Plan` of the original flags |

## Left out

- Reading `process.argv` (src/index.js:7) is not modelled. The
  sub-command and the flag list are given. A missing sub-command
  (`undefined`) is not a separate case; it fails the known-command check
  like any unknown string.
- `shell.which`, `fs.existsSync` and `path.resolve` are inputs. The
  first is the boolean `slsOnPath`. The other two are membership in
  `paths`, looked up by the name as written, with no path normalisation.
- `require('custom-env').env(stage)` is an input. Its effect on
  `process.env.STACKS` is the `stacksVar` value, which the model reads
  only on the fan-out path, as the source does.
- `shell.cd` is not modelled, so neither is the working directory. The
  source changes into `stackName.trim()` and back with `cd('..')`. That
  returns to the starting folder only for a one-component name. The
  existence check uses the untrimmed name. The model checks every stack
  against the same `paths` and does not trim.
- `shell.exec` is not modelled, and neither is the subprocess's output
  or exit status. Each invocation is an `Executed` event. The source
  ignores the result too.
- Diagnostic texts, the "executing in the stack" banner and ANSI colour
  codes are not modelled. Each diagnostic is a tag.
- The process exit code is not modelled. The source never sets one.
