/**
 * The `go` command: moving the shell's current directory, confined to the world root and
 * refused for restricted names, non-directories and locked directories.
 */
module Go {
  import opened Wrappers
  import opened Text
  import opened Paths
  import opened Fs
  import opened Env
  import opened InfoReader
  import opened LockPerm
  import opened ArgParser
  import opened Console

  const HELP_TXT := "\nUsage: go [destination]\n\nNavigate to different directories:\n- go <dirname>    : Enter specified directory\n- go HOME         : Return to home directory\n- go ..           : Move up one directory\n- go back         : Same as `go ..`\n\n"
  const AT_ROOT := "You are at the root. Cannot go back further"
  const OUTSIDE := GO_PREFIX + "Access denied: Cannot go outside root"
  const LOCKED_MESSAGE := "Cannot enter locked directory. Unlock it first"
  const MISSING := "go: missing directory operand\nTry 'help go' for more information."
  const TOO_MANY := "go: too many arguments\nTry 'help go' for more information."
  const UNKNOWN_FLAG := "go: unknown flag\nTry 'help go' for more information."
  const PARSE_ERROR := "Error parsing arguments. Try 'help go' for more information."
  const ENTERED := "You have entered "
  /** The prefix of every refusal that names the command. */
  const GO_PREFIX := "go: "

  /** The directory the shell is in afterwards, and what `go` answers. */
  datatype Nav = Nav(dir: Path, out: Outcome)

  function Restricted(dest: string): (r: string)
    ensures StartsWith(r, GO_PREFIX)
  {
    var r := GO_PREFIX + "Attempted to go to/refers a restricted directory: " + dest + ". Operation Not Permitted";
    assert r[..|GO_PREFIX|] == GO_PREFIX;
    r
  }

  function NoSuchDirectory(dest: string): (r: string)
    ensures StartsWith(r, GO_PREFIX)
  {
    Prefixed(dest + ": No such directory");
    GO_PREFIX + (dest + ": No such directory")
  }

  function IsAFile(dest: string): (r: string)
    ensures StartsWith(r, GO_PREFIX)
  {
    Prefixed(dest + ": Is a file (try 'read " + dest + "')");
    GO_PREFIX + (dest + ": Is a file (try 'read " + dest + "')")
  }

  function NotADirectory(dest: string): (r: string)
    ensures StartsWith(r, GO_PREFIX)
  {
    Prefixed(dest + ": Not a directory");
    GO_PREFIX + (dest + ": Not a directory")
  }

  lemma Prefixed(rest: string)
    ensures StartsWith(GO_PREFIX + rest, GO_PREFIX)
  {
    assert (GO_PREFIX + rest)[..|GO_PREFIX|] == GO_PREFIX;
  }

  /** The greeting for an entered directory: its `about` without surrounding quotes, if readable. */
  function Greeting(w: World, p: Path, root: Path): (r: string)
    ensures StartsWith(r, ENTERED)
  {
    var rest := match ReadValidateInfo(w, InfoPath(p))
      case Ok(info) => RelativeDisplay(p, root) + "\n\nAbout:\n" + TrimMatches(info.about, '"')
      case Err(_) => RelativeDisplay(p, root) + "\n\nNo additional information available.";
    assert (ENTERED + rest)[..|ENTERED|] == ENTERED;
    ENTERED + rest
  }

  /** A refusal: a panic, an answer starting with `go: `, or the root message. */
  predicate IsRefusal(out: Outcome) {
    out.Panic? || StartsWith(out.text, GO_PREFIX) || out.text == AT_ROOT
  }

  /**
   * The path `navigate` asks to canonicalise, or its early answer: `HOME`/`home` is the
   * root, `..`/`back` the parent (refused at the root, a panic at `/`), anything else the
   * argument joined to the current directory unless `check_dir_info` flags it.
   */
  function Candidate(env: Env, dest: string, currentDir: Path, root: Path): (r: Result<Path, Outcome>)
    ensures r.Err? ==> IsRefusal(r.error) && r.error.asked == []
    ensures (dest == "HOME" || dest == "home") ==> r == Ok(root)
    ensures (dest == ".." || dest == "back") && currentDir == root ==> r == Err(Reply(AT_ROOT, []))
    ensures (dest == ".." || dest == "back") && currentDir != root && currentDir != [] ==>
      r == Ok(currentDir[..|currentDir| - 1])
    ensures dest !in {"HOME", "home", "..", "back"} ==>
      r == if env.checkDirInfo(Comps(dest)) then Err(Reply(Restricted(dest), [])) else Ok(Join(currentDir, dest))
  {
    if dest == "HOME" || dest == "home" then Ok(root)
    else if dest == ".." || dest == "back" then
      if currentDir == root then Err(Reply(AT_ROOT, []))
      else match Parent(currentDir)
        case None => Err(Panic([]))
        case Some(up) => Ok(up)
    else if env.checkDirInfo(Comps(dest)) then Err(Reply(Restricted(dest), []))
    else Ok(Join(currentDir, dest))
  }

  /** `go` moved: the answer is the greeting of a directory. */
  predicate Entering(r: Nav) {
    r.out.Reply? && StartsWith(r.out.text, ENTERED)
  }

  /** All the checks `navigate` makes on the canonical path pass. */
  predicate Admits(env: Env, w: World, p: Path, root: Path) {
    IsPrefix(root, p) && IsDir(w, p) && OperationLockedPerm(env.worldDir, w, p, "go", LOCKED_MESSAGE).Ok?
  }

  /**
   * The checks of `navigate` in their order: the directory to enter, or the refusal
   * returned with the current directory.
   */
  function Check(env: Env, w: World, dest: string, currentDir: Path, root: Path): (r: Result<Path, Outcome>)
    ensures r.Ok? <==>
      && Candidate(env, dest, currentDir, root).Ok?
      && env.canonicalize(w, Candidate(env, dest, currentDir, root).value).Some?
      && Admits(env, w, env.canonicalize(w, Candidate(env, dest, currentDir, root).value).value, root)
    ensures r.Ok? ==> r.value == env.canonicalize(w, Candidate(env, dest, currentDir, root).value).value
    ensures r.Err? ==> IsRefusal(r.error) && r.error.asked == []
  {
    match Candidate(env, dest, currentDir, root)
    case Err(out) => Err(out)
    case Ok(newPath) =>
      match env.canonicalize(w, newPath)
      case None => Err(Reply(NoSuchDirectory(dest), []))
      case Some(p) => Admit(env, w, dest, p, root)
  }

  /** The checks `navigate` makes on the canonical path `p`, in their order. */
  function Admit(env: Env, w: World, dest: string, p: Path, root: Path): (r: Result<Path, Outcome>)
    ensures r.Ok? <==> Admits(env, w, p, root)
    ensures r.Ok? ==> r.value == p
    ensures r.Err? ==> IsRefusal(r.error) && r.error.asked == []
  {
    if !IsPrefix(root, p) then
      Prefixed("Access denied: Cannot go outside root");
      Err(Reply(OUTSIDE, []))
    else if !IsDir(w, p) then Err(Reply(if IsFile(w, p) then IsAFile(dest) else NotADirectory(dest), []))
    else match OperationLockedPerm(env.worldDir, w, p, "go", LOCKED_MESSAGE)
      case Err(e) =>
        assert "go" + ": " == GO_PREFIX;
        Err(Reply(e, []))
      case Ok(_) => Ok(p)
  }

  /**
   * `navigate(destination, current_dir, root_dir)`: every refusal keeps the current
   * directory; a move lands on the canonical form of the candidate path.
   */
  function Navigate(env: Env, w: World, dest: string, currentDir: Path, root: Path): (r: Nav)
    ensures !Entering(r) ==> r.dir == currentDir
    ensures r.out.asked == []
  {
    match Check(env, w, dest, currentDir, root)
    case Err(out) => Nav(currentDir, out)
    case Ok(p) => Nav(p, Reply(Greeting(w, p, root), []))
  }

  /** Refusals start with `go:` or say where the shell is; none is a greeting. */
  lemma Refusal(out: Outcome)
    requires IsRefusal(out)
    ensures !(out.Reply? && StartsWith(out.text, ENTERED))
  {
    assert ENTERED[0] != GO_PREFIX[0] && ENTERED[4] != AT_ROOT[4];
  }

  /**
   * `go` moves exactly when the candidate canonicalises to a directory below the root whose
   * ancestor chain is not locked, and then it moves there.
   */
  lemma NavigateSpec(env: Env, w: World, dest: string, currentDir: Path, root: Path)
    ensures var r := Navigate(env, w, dest, currentDir, root);
      Entering(r) <==>
        && Candidate(env, dest, currentDir, root).Ok?
        && env.canonicalize(w, Candidate(env, dest, currentDir, root).value).Some?
        && Admits(env, w, env.canonicalize(w, Candidate(env, dest, currentDir, root).value).value, root)
    ensures var r := Navigate(env, w, dest, currentDir, root);
      Entering(r) ==> r.dir == env.canonicalize(w, Candidate(env, dest, currentDir, root).value).value
                      && Admits(env, w, r.dir, root)
                      && r.out == Reply(Greeting(w, r.dir, root), [])
  {
    var c := Check(env, w, dest, currentDir, root);
    if c.Err? {
      Refusal(c.error);
    }
  }

  /** `go HOME` enters the root whenever the root itself is admitted. */
  lemma HomeReturns(env: Env, w: World, currentDir: Path, root: Path)
    requires env.canonicalize(w, root) == Some(root) && Admits(env, w, root, root)
    ensures Navigate(env, w, "HOME", currentDir, root) == Nav(root, Reply(Greeting(w, root, root), []))
  {
  }

  /** `go ..` at the root stays there with its own message. */
  lemma BackAtRoot(env: Env, w: World, root: Path)
    ensures Navigate(env, w, "..", root, root) == Nav(root, Reply(AT_ROOT, []))
    ensures Navigate(env, w, "back", root, root) == Nav(root, Reply(AT_ROOT, []))
  {
  }

  /**
   * `go` once its arguments have parsed: exactly one positional argument, otherwise the
   * current directory is kept with a usage message.
   */
  function GoWith(env: Env, w: World, pos: seq<string>, currentDir: Path, root: Path): (r: Nav)
    ensures |pos| == 0 ==> r == Nav(currentDir, Reply(MISSING, []))
    ensures |pos| > 1 ==> r == Nav(currentDir, Reply(TOO_MANY, []))
    ensures |pos| == 1 ==> r == Navigate(env, w, pos[0], currentDir, root)
  {
    if |pos| == 0 then Nav(currentDir, Reply(MISSING, []))
    else if |pos| > 1 then Nav(currentDir, Reply(TOO_MANY, []))
    else Navigate(env, w, pos[0], currentDir, root)
  }

  /** `go`: accepts no flag; a help flag gives the help text and another flag its message. */
  method GoCommand(env: Env, w: World, args: seq<string>, currentDir: Path, root: Path) returns (r: Nav)
    ensures (forall i :: 0 <= i < |args| ==> !StartsWith(args[i], "-")) ==>
      r == GoWith(env, w, args, currentDir, root)
    ensures (exists i :: 0 <= i < |args| && StartsWith(args[i], "-")) ==>
      r == Nav(currentDir, Reply(HELP_TXT, [])) || r == Nav(currentDir, Reply(UNKNOWN_FLAG, []))
    ensures forall k :: FirstRejectedAt(NewParser([]).flags, args, k) ==>
      r == Nav(currentDir, Reply(if IsHelp(args[k]) then HELP_TXT else UNKNOWN_FLAG, []))
    ensures !Entering(r) ==> r.dir == currentDir
  {
    var p := NewParser([]);
    var q, res := Parse(p, args);
    match res
    case Err(e) =>
      var text := if e == "help" then HELP_TXT else if e == "unknown" then UNKNOWN_FLAG else PARSE_ERROR;
      r := Nav(currentDir, Reply(text, []));
    case Ok(_) =>
      PositionalOfPlain(q.args);
      r := GoWith(env, w, PositionalArgs(q), currentDir, root);
  }
}
