/**
 * The closed set of actions attached to every match, with their string
 * ids and the static text and icon shown for them.
 */
module Actions {
  import opened Util

  datatype Action = Run | Shell

  /** What the launcher shows for an action. */
  datatype ActionInfo = ActionInfo(text: string, iconSource: string)

  /** `Action::all`: every action, once each, `Run` first. */
  function All(): (r: seq<Action>)
    ensures forall a: Action :: a in r
    ensures forall i, j :: 0 <= i < j < |r| ==> r[i] != r[j]
    ensures |r| == 2 && r[0] == Run
  {
    var r := [Run, Shell];
    assert forall a: Action :: a in r by {
      forall a: Action ensures a in r {
        if a.Run? { assert r[0] == a; } else { assert r[1] == a; }
      }
    }
    r
  }

  /** `Action::to_id`: each action has its own lower-case id. */
  function ToId(a: Action): (s: string)
    ensures s == "run" || s == "shell"
    ensures s == "run" <==> a == Run
  {
    match a
    case Run => "run"
    case Shell => "shell"
  }

  /** `Action::from_id`: the action whose id is `s`, if there is one. */
  function FromId(s: string): (r: Option<Action>)
    ensures r.Some? ==> ToId(r.value) == s
    ensures r.None? ==> forall a: Action :: ToId(a) != s
  {
    match s
    case "run" => Some(Run)
    case "shell" => Some(Shell)
    case _ => None
  }

  /** Ids round-trip: the id of an action names that action and no other. */
  lemma FromIdToId(a: Action)
    ensures FromId(ToId(a)) == Some(a)
  {
  }

  /** Only the two ids name an action. */
  lemma FromIdAccepts(s: string)
    ensures FromId(s).Some? <==> s == "run" || s == "shell"
  {
  }

  /** `Action::info`: the display text and icon of each action. */
  function Info(a: Action): (r: ActionInfo)
    ensures a == Run ==> r == ActionInfo("Run Nix program", "system-run-symbolic")
    ensures a == Shell ==> r == ActionInfo("Spawn a new shell with Nix program", "new-command-alarm")
  {
    match a
    case Run => ActionInfo("Run Nix program", "system-run-symbolic")
    case Shell => ActionInfo("Spawn a new shell with Nix program", "new-command-alarm")
  }

  /** The two actions are told apart by their text and by their icon. */
  lemma InfoDistinguishesActions(a: Action, b: Action)
    ensures Info(a).text == Info(b).text ==> a == b
    ensures Info(a).iconSource == Info(b).iconSource ==> a == b
  {
  }
}
