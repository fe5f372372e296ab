/** Reading and stripping command-line flags (src/index.js:15-57). The
    flag list is the argument vector after the program name and the
    sub-command; a flag's value is the token right after the flag's FIRST
    occurrence. */
module Flags {
  import opened Wrappers
  import opened Sequences

  /** JavaScript truthiness of a string that may be `undefined`: both
      `undefined` and the empty string are falsy. */
  predicate Truthy(v: Option<string>)
  {
    v.Some? && v.value != ""
  }

  /** `getValue(flag)`: the token after the first `flag`, or `undefined`
      when `flag` is absent or is the last token. */
  function GetValue(flags: seq<string>, flag: string): (r: Option<string>)
    ensures flag !in flags ==> r == None
    ensures forall i :: FirstAt(flags, flag, i) ==>
              r == if i + 1 < |flags| then Some(flags[i + 1]) else None
  {
    if flag in flags then
      var flagIndex := IndexOf(flags, flag);
      var valueIndex := flagIndex + 1;
      FirstAtUnique(flags, flag, flagIndex);
      if |flags| > valueIndex then Some(flags[valueIndex]) else None
    else
      None
  }

  /** The list that `removeFlag(flag)` leaves: the first `flag` and the
      token after it are dropped when such a token exists; a missing flag,
      or one that is the last token, leaves the list as it is. Defined by
      walking the list, independently of the index arithmetic of the
      splice. */
  function Spliced(flags: seq<string>, flag: string): seq<string>
  {
    if |flags| == 0 then flags
    else if flags[0] == flag then (if |flags| > 1 then flags[2..] else flags)
    else [flags[0]] + Spliced(flags[1..], flag)
  }

  /** The splice removes exactly the two entries at the first occurrence
      and the one after it; everything else keeps its relative order. */
  lemma {:induction false} SplicedAtFirst(flags: seq<string>, flag: string, i: int)
    requires FirstAt(flags, flag, i) && i + 1 < |flags|
    ensures Spliced(flags, flag) == flags[..i] + flags[i + 2..]
    ensures |Spliced(flags, flag)| == |flags| - 2
    decreases i
  {
    if i == 0 {
      assert flags[..0] + flags[2..] == flags[2..];
    } else {
      var tail := flags[1..];
      assert flags[0] != flag by {
        assert flags[..i][0] == flags[0];
      }
      assert FirstAt(tail, flag, i - 1) by {
        assert flags[..i] == [flags[0]] + tail[..i - 1];
      }
      SplicedAtFirst(tail, flag, i - 1);
      assert Spliced(flags, flag) == [flags[0]] + (tail[..i - 1] + tail[i + 1..]);
      assert [flags[0]] + (tail[..i - 1] + tail[i + 1..]) == flags[..i] + flags[i + 2..] by {
        assert [flags[0]] + tail[..i - 1] == flags[..i];
        assert tail[i + 1..] == flags[i + 2..];
      }
    }
  }

  /** A flag that is absent, or whose first occurrence is the last token,
      is left in place: the splice changes nothing. */
  lemma {:induction false} SplicedUnchanged(flags: seq<string>, flag: string)
    requires flag !in flags || FirstAt(flags, flag, |flags| - 1)
    ensures Spliced(flags, flag) == flags
    decreases |flags|
  {
    if |flags| > 0 && flags[0] != flag {
      var tail := flags[1..];
      assert flags == [flags[0]] + tail;
      if flag in flags {
        assert flags[..|flags| - 1] == [flags[0]] + tail[..|tail| - 1];
      }
      SplicedUnchanged(tail, flag);
    }
  }

  /** `getStage()`: the value of `--stage` when it is truthy, otherwise the
      value of `-s` (which may itself be `undefined` or empty). */
  function GetStage(flags: seq<string>): Option<string>
  {
    var stage := GetValue(flags, "--stage");
    if !Truthy(stage) then GetValue(flags, "-s") else stage
  }

  /** A non-empty value after the first `--stage` is the stage, whatever
      `-s` says. */
  lemma StageFromLongFlag(flags: seq<string>, i: int)
    requires FirstAt(flags, "--stage", i) && i + 1 < |flags| && flags[i + 1] != ""
    ensures GetStage(flags) == Some(flags[i + 1])
  {
  }

  /** When `--stage` is absent, is the last token, or is followed by the
      empty string, the stage is whatever `-s` gives. */
  lemma StageFallsBack(flags: seq<string>, i: int)
    requires "--stage" !in flags
          || (FirstAt(flags, "--stage", i) && (i + 1 == |flags| || flags[i + 1] == ""))
    ensures GetStage(flags) == GetValue(flags, "-s")
  {
  }

  /** Neither flag present: no stage. */
  lemma StageAbsent(flags: seq<string>)
    requires "--stage" !in flags && "-s" !in flags
    ensures GetStage(flags) == None
  {
  }

  /** An empty `--stage` value falls through to `-s`. */
  lemma EmptyStageFallsThrough()
    ensures GetStage(["--stage", "", "-s", "dev"]) == Some("dev")
  {
    var flags := ["--stage", "", "-s", "dev"];
    assert FirstAt(flags, "--stage", 0);
    assert FirstAt(flags, "-s", 2) by {
      assert flags[..2] == ["--stage", ""];
    }
  }
}
