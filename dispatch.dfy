/**
 * `run`: the process the runner starts for a chosen match and action.
 * Only the command line is modelled; starting it is not.
 */
module Dispatch {
  import opened Util
  import opened Actions

  /** A process to start: the program and its argument list. */
  datatype Command = Command(program: string, args: seq<string>)

  /** The flake reference for a match id. */
  function Target(matchId: string): (t: string)
    ensures |t| == |matchId| + 8 && t[..8] == "nixpkgs#" && t[8..] == matchId
  {
    "nixpkgs#" + matchId
  }

  /**
   * `run`: a terminal running `nix shell` on the package for `Shell`, and
   * `nix run` for `Run` or when no action was chosen.
   */
  function RunCommand(matchId: string, action: Option<Action>): (c: Command)
    ensures c.program == "konsole"
    ensures |c.args| == 6
    ensures c.args[..2] == ["-e", "nix"]
    ensures FromId(c.args[2]) == Some(if action == Some(Shell) then Shell else Run)
    ensures c.args[3] == Target(matchId)
    ensures c.args[4..] == ["--extra-experimental-features", "nix-command"]
  {
    match action
    case Some(Shell) =>
      Command("konsole", ["-e", "nix", "shell", Target(matchId), "--extra-experimental-features", "nix-command"])
    case None | Some(Run) =>
      Command("konsole", ["-e", "nix", "run", Target(matchId), "--extra-experimental-features", "nix-command"])
  }

  /** Choosing no action is choosing `Run`. */
  lemma DefaultIsRun(matchId: string)
    ensures RunCommand(matchId, None) == RunCommand(matchId, Some(Run))
  {
  }

  /** `Shell` starts the same command as `Run` except for the `nix` subcommand. */
  lemma ShellDiffersOnlyInVerb(matchId: string)
    ensures var run := RunCommand(matchId, Some(Run));
            var shell := RunCommand(matchId, Some(Shell));
            && run.program == shell.program
            && |run.args| == |shell.args|
            && (forall k :: 0 <= k < |run.args| && k != 2 ==> run.args[k] == shell.args[k])
            && run.args[2] == "run" && shell.args[2] == "shell"
  {
  }

  /** The command tells which match was chosen and whether a shell was asked for. */
  lemma RunCommandInjective(id1: string, a1: Option<Action>, id2: string, a2: Option<Action>)
    requires RunCommand(id1, a1) == RunCommand(id2, a2)
    ensures id1 == id2
    ensures a1 == Some(Shell) <==> a2 == Some(Shell)
  {
  }
}
