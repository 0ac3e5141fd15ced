/**
 * The `solve` command: the player names a level and types an answer; for an unlocked level
 * the answer is turned into a flag through the cipher chain of `Flags`.
 */
module Solve {
  import opened Wrappers
  import opened Text
  import opened Paths
  import opened Json
  import opened Fs
  import opened Env
  import opened InfoReader
  import opened LockPerm
  import opened ArgParser
  import opened Flags
  import opened Console

  const PREFIX := "solve: "
  const HELP_TEXT := "\nUsage: solve [OPTIONS] <LEVEL_NAME> <\n\nUse Solve to enter your answer to a problem \nOptions:\n\nExamples:\n"
  const PARSE_ERROR := "Error parsing arguments. Try 'help solve' for more information."
  const TOO_MANY := "Too many positional arguments provided. Only 1 argument expected."
  const NO_TARGET := "No positional argument provided. Expected path to level."
  const INVALID_PATH := "Invalid path given"
  const NOT_LEVEL := "This is not a level. Cannot solve."
  const LEVEL_LOCKED := "Level is locked. You must first unlock it."
  const LOCK_UNREADABLE := "Failed to read lock permissions for the level."
  const NO_NAME := "Failed to get level name from path."
  const NO_INPUT := "No input provided. Cannot solve."
  const NO_DECRYPT_ME := "Unable to read decrypt_me property from info.json"
  const FLAG_LABEL := "User flag: "
  const DEFAULT_USER := "default_user"

  function AnswerPrompt(level: string): string {
    "> Enter your answer for level '" + level + "': "
  }

  /** The `decrypt_me` string of a level, as `check_solve_input` reads it from a property bag. */
  function DecryptMe(bag: Bag): Option<string> {
    if "decrypt_me" in bag && bag["decrypt_me"].Str? then Some(bag["decrypt_me"].s) else None
  }

  /**
   * `check_solve_input`: `None` where it panics (the parent record cannot be read, or a key
   * divides by zero), otherwise the flag or the reason there is none.
   */
  function CheckSolveInput(w: World, answer: string, target: Path, level: string, username: string)
    : (r: Option<Result<string, string>>)
    ensures r == Some(Err(NO_DECRYPT_ME)) <==>
      target != [] && GetObjInfo(w, ParentInfoPath(target), level).Ok?
      && DecryptMe(GetObjInfo(w, ParentInfoPath(target), level).value).None?
    ensures r.Some? && r.value.Ok? ==>
      target != [] && GetObjInfo(w, ParentInfoPath(target), level).Ok?
      && var dm := DecryptMe(GetObjInfo(w, ParentInfoPath(target), level).value);
         dm.Some? && SolveFlag(username, level, answer, dm.value) == Some(r.value.value)
         && |r.value.value| == |dm.value|
    ensures r.None? <==>
      target == [] || GetObjInfo(w, ParentInfoPath(target), level).Err?
      || (DecryptMe(GetObjInfo(w, ParentInfoPath(target), level).value).Some?
          && SolveFlag(username, level, answer, DecryptMe(GetObjInfo(w, ParentInfoPath(target), level).value).value).None?)
  {
    if target == [] then None
    else match GetObjInfo(w, ParentInfoPath(target), level)
      case Err(_) => None
      case Ok(bag) =>
        match DecryptMe(bag)
        case None => Some(Err(NO_DECRYPT_ME))
        case Some(dm) =>
          match SolveFlag(username, level, answer, dm)
          case None => None
          case Some(flag) => Some(Ok(flag))
  }

  /** The level a positional argument names. */
  function Target(env: Env, currentDir: Path, arg: string): Path {
    env.normalize(Join(currentDir, arg))
  }

  /** The reply carries a flag. */
  predicate IssuesFlag(out: Outcome) {
    out.Reply? && StartsWith(out.text, FLAG_LABEL)
  }

  /**
   * `solve` once its arguments have parsed, given the positional arguments: the level must
   * exist, read as an unlocked level, and have a name; then the prompter's answer is turned
   * into a flag. `username` is the logged-in user's name, if any.
   */
  function SolveWith(env: Env, w: World, pos: seq<string>, currentDir: Path, username: Option<string>,
                     prompter: Prompter): (out: Outcome)
    ensures |pos| > 1 ==> out == Reply(PREFIX + TOO_MANY, [])
    ensures |pos| == 0 ==> out == Reply(PREFIX + NO_TARGET, [])
    ensures |pos| == 1 && !Exists(w, Target(env, currentDir, pos[0])) ==> out == Reply(PREFIX + INVALID_PATH, [])
    ensures |pos| == 1 && Exists(w, Target(env, currentDir, pos[0])) ==>
      match ReadLockPerm(w, Target(env, currentDir, pos[0]))
      case Err(_) => out == Reply(PREFIX + LOCK_UNREADABLE, [])
      case Ok((isLevel, isLocked)) =>
        (!isLevel ==> out == Reply(PREFIX + NOT_LEVEL, []))
        && (isLevel && isLocked ==> out == Reply(PREFIX + LEVEL_LOCKED, []))
    ensures out.asked != [] ==>
      && |pos| == 1 && FileName(Target(env, currentDir, pos[0])).Some?
      && out.asked == [AnswerPrompt(FileName(Target(env, currentDir, pos[0])).value)]
    ensures prompter.answer == [] && out.asked != [] ==> out == Reply(PREFIX + NO_INPUT, out.asked)
  {
    if |pos| > 1 then Reply(PREFIX + TOO_MANY, [])
    else if |pos| == 0 then Reply(PREFIX + NO_TARGET, [])
    else
      var target := Target(env, currentDir, pos[0]);
      if !Exists(w, target) then Reply(PREFIX + INVALID_PATH, [])
      else match ReadLockPerm(w, target)
        case Err(_) => Reply(PREFIX + LOCK_UNREADABLE, [])
        case Ok((isLevel, isLocked)) =>
          if !isLevel then Reply(PREFIX + NOT_LEVEL, [])
          else if isLocked then Reply(PREFIX + LEVEL_LOCKED, [])
          else match FileName(target)
            case None => Reply(PREFIX + NO_NAME, [])
            case Some(level) =>
              var asked := [AnswerPrompt(level)];
              if prompter.answer == [] then Reply(PREFIX + NO_INPUT, asked)
              else
                match CheckSolveInput(w, prompter.answer, target, level, username.GetOr(DEFAULT_USER))
                case None => Panic(asked)
                case Some(Ok(flag)) => Reply(FLAG_LABEL + flag, asked)
                case Some(Err(e)) => Reply(PREFIX + "Error solving " + level + ": " + e, asked)
  }

  /**
   * The flag a successful `solve` prints is the one derived from the typed answer and the
   * level's `decrypt_me` for the logged-in user, or for `default_user` when nobody is logged
   * in; it is as long as `decrypt_me`.
   */
  lemma SolveFlagIssued(env: Env, w: World, pos: seq<string>, currentDir: Path, username: Option<string>,
                        prompter: Prompter)
    requires IssuesFlag(SolveWith(env, w, pos, currentDir, username, prompter))
    ensures |pos| == 1 && ReadLockPerm(w, Target(env, currentDir, pos[0])) == Ok((true, false))
    ensures var out := SolveWith(env, w, pos, currentDir, username, prompter);
      var target := Target(env, currentDir, pos[0]);
      && target != [] && FileName(target).Some? && prompter.answer != []
      && GetObjInfo(w, ParentInfoPath(target), FileName(target).value).Ok?
      && var dm := DecryptMe(GetObjInfo(w, ParentInfoPath(target), FileName(target).value).value);
         && dm.Some?
         && SolveFlag(username.GetOr(DEFAULT_USER), FileName(target).value, prompter.answer, dm.value).Some?
         && out.text == FLAG_LABEL + SolveFlag(username.GetOr(DEFAULT_USER), FileName(target).value,
                                               prompter.answer, dm.value).value
         && |out.text| == |FLAG_LABEL| + |dm.value|
  {
    var out := SolveWith(env, w, pos, currentDir, username, prompter);
    assert out.text[0] != 's';
    assert |pos| == 1;
    var target := Target(env, currentDir, pos[0]);
    var level := FileName(target).value;
    var r := CheckSolveInput(w, prompter.answer, target, level, username.GetOr(DEFAULT_USER));
    assert r.Some? && r.value.Ok?;
  }

  /**
   * `solve`: parses the arguments (no flag is accepted), then runs as `SolveWith` on the
   * positional ones. A help flag gives the help text and any other flag a parse error.
   */
  method Solve(env: Env, w: World, args: seq<string>, currentDir: Path, username: Option<string>,
               prompter: Prompter) returns (out: Outcome)
    ensures (forall i :: 0 <= i < |args| ==> !StartsWith(args[i], "-")) ==>
      out == SolveWith(env, w, args, currentDir, username, prompter)
    ensures (exists i :: 0 <= i < |args| && IsHelp(args[i]) && forall j :: 0 <= j < i ==> !StartsWith(args[j], "-"))
      ==> out == Reply(HELP_TEXT, [])
    ensures (exists i :: 0 <= i < |args| && StartsWith(args[i], "-")) ==>
      out == Reply(HELP_TEXT, []) || out == Reply(PARSE_ERROR, [])
    ensures forall k :: FirstRejectedAt(NewParser([]).flags, args, k) ==>
      out == Reply(if IsHelp(args[k]) then HELP_TEXT else PARSE_ERROR, [])
  {
    var p := NewParser([]);
    var q, res := Parse(p, args);
    match res
    case Err(e) =>
      out := Reply(if e == "help" then HELP_TEXT else PARSE_ERROR, []);
    case Ok(_) =>
      PositionalOfPlain(q.args);
      out := SolveWith(env, w, PositionalArgs(q), currentDir, username, prompter);
  }
}
