/**
 * The `read` command: the contents of a file below the world root. Only the first argument
 * is used; there is no flag parsing and no lock check.
 */
module ReadCmd {
  import opened Wrappers
  import opened Text
  import opened Paths
  import opened Fs
  import opened Env

  const MISSING := "read: missing file operand"
  const OUTSIDE := "read: Access denied outside root directory"

  function Restricted(shown: string): string {
    "read: Attempted to read/refer restricted files: " + shown + " Operation Not Permitted"
  }

  function IsADirectory(shown: string): string {
    "read: " + shown + ": Is a directory"
  }

  /** How a failed read is reported: only a missing file has its own text. */
  function ReadFailed(shown: string, e: IoErr): string {
    "read: " + shown + ": " + (if e == IoErr.NotFound then "No such file" else "Could not read file")
  }

  /**
   * `fs::read_to_string`: a snapshot archive is compressed binary data that is never valid
   * UTF-8, so it reads as an error; any other file reads as its contents.
   */
  function ReadToString(w: World, p: Path): (r: Result<Body, IoErr>)
    ensures r.Ok? <==> IsFile(w, p) && !Read(w, p).value.Archive?
    ensures r.Ok? ==> r.value == Read(w, p).value
  {
    match Read(w, p)
    case Ok(Archive(_)) => Err(Other("stream did not contain valid UTF-8"))
    case Ok(b) => Ok(b)
    case Err(e) => Err(e)
  }

  /** The path `read` works on: the first argument joined to the current directory. */
  function FilePath(args: seq<string>, cur: Path): Path
    requires args != []
  {
    Join(cur, args[0])
  }

  /**
   * `read(args, current_dir, root_dir)`: the file's contents, or the answer. The guards are
   * `check_dir_info` on the joined path, a component-prefix test of the joined path against
   * the root, and a directory test; read errors are reported by kind.
   */
  function ReadWith(env: Env, w: World, args: seq<string>, cur: Path, root: Path): (r: Result<Body, string>)
    ensures args == [] ==> r == Err(MISSING)
    ensures r.Ok? <==>
      && args != []
      && !env.checkDirInfo(FilePath(args, cur))
      && IsPrefix(root, FilePath(args, cur))
      && IsFile(w, FilePath(args, cur))
      && !Read(w, FilePath(args, cur)).value.Archive?
    ensures r.Ok? ==> Stat(w, FilePath(args, cur)) == Some(File(r.value))
    ensures args != [] && env.checkDirInfo(FilePath(args, cur)) ==>
      r == Err(Restricted(RelativeDisplay(FilePath(args, cur), root)))
    ensures args != [] && !env.checkDirInfo(FilePath(args, cur)) && !IsPrefix(root, FilePath(args, cur)) ==>
      r == Err(OUTSIDE)
    ensures args != [] && !env.checkDirInfo(FilePath(args, cur)) && IsPrefix(root, FilePath(args, cur)) ==>
      && (IsDir(w, FilePath(args, cur)) ==> r == Err(IsADirectory(RelativeDisplay(FilePath(args, cur), root))))
      && (!Exists(w, FilePath(args, cur)) ==>
            r == Err(ReadFailed(RelativeDisplay(FilePath(args, cur), root), Read(w, FilePath(args, cur)).error)))
  {
    if args == [] then Err(MISSING)
    else
      var p := FilePath(args, cur);
      var shown := RelativeDisplay(p, root);
      if env.checkDirInfo(p) then Err(Restricted(shown))
      else if !IsPrefix(root, p) then Err(OUTSIDE)
      else if IsDir(w, p) then Err(IsADirectory(shown))
      else match ReadToString(w, p)
        case Ok(b) => Ok(b)
        case Err(e) => Err(ReadFailed(shown, e))
  }

  /** A path that resolves but names nothing is reported as "No such file". */
  lemma MissingFileMessage(env: Env, w: World, args: seq<string>, cur: Path, root: Path)
    requires args != [] && !env.checkDirInfo(FilePath(args, cur)) && IsPrefix(root, FilePath(args, cur))
    requires Locate(w, FilePath(args, cur)).Ok? && Locate(w, FilePath(args, cur)).value !in w
    ensures ReadWith(env, w, args, cur, root)
         == Err(ReadFailed(RelativeDisplay(FilePath(args, cur), root), IoErr.NotFound))
  {
  }

  /** A path below the root that resolves to a stored text file is printed. */
  lemma ReadsStored(env: Env, w: World, arg: string, cur: Path, root: Path, q: Path, t: string)
    requires Locate(w, Join(cur, arg)) == Ok(q) && q in w && w[q] == File(Text(t))
    requires IsPrefix(root, Join(cur, arg)) && !env.checkDirInfo(Join(cur, arg))
    ensures ReadWith(env, w, [arg], cur, root) == Ok(Text(t))
  {
    assert FilePath([arg], cur) == Join(cur, arg);
  }

  /**
   * There is no lock check: a text file below the root is printed whatever lock code its
   * parent's record holds for it.
   */
  lemma ReadIgnoresLocks(env: Env, w: World, name: string, cur: Path, root: Path, t: string)
    requires WF(w) && cur in w && w[cur].Dir? && IsComp(name) && name != ".."
    requires cur + [name] in w && w[cur + [name]] == File(Text(t))
    requires IsPrefix(root, cur) && !env.checkDirInfo(cur + [name])
    ensures ReadWith(env, w, [name], cur, root) == Ok(Text(t))
  {
    JoinName(cur, name);
    PlainSnoc(cur, name);
    assert (cur + [name])[..|cur + [name]| - 1] == cur;
    LocateStored(w, cur + [name]);
    ReadsStored(env, w, name, cur, root, cur + [name], t);
  }

  /** Joining a plain name adds one component. */
  lemma JoinName(cur: Path, name: string)
    requires IsComp(name)
    ensures Join(cur, name) == cur + [name]
    ensures IsPrefix(cur, cur + [name])
  {
    SplitNoSlash(name);
    assert Keep([name]) == [name] + Keep([]);
    assert (cur + [name])[..|cur|] == cur;
  }

  /** Resolving `root/../name` passes through the parent of the root. */
  lemma LocateBesideRoot(w: World, root: Path, name: string)
    requires WF(w) && root != [] && root in w && w[root].Dir?
    requires IsComp(name) && name != ".."
    ensures Locate(w, root + ["..", name]) == Ok(root[..|root| - 1] + [name])
  {
    var p := root + ["..", name];
    assert p[..|p| - 1] == root + [".."];
    assert (root + [".."])[..|root + [".."]| - 1] == root;
    LocateDirStored(w, root);
  }

  /**
   * The root guard does not resolve `..`: from the world root, `read ../name` prints a
   * text file stored next to the root, outside it.
   */
  lemma ReadsAboveRoot(env: Env, w: World, root: Path, name: string, t: string)
    requires WF(w) && root != [] && root in w && w[root].Dir?
    requires IsComp(name) && name != ".."
    requires root[..|root| - 1] + [name] in w && w[root[..|root| - 1] + [name]] == File(Text(t))
    requires !env.checkDirInfo(root + ["..", name])
    ensures ReadWith(env, w, ["../" + name], root, root) == Ok(Text(t))
  {
    CompsUpName(name);
    var p := root + ["..", name];
    assert Join(root, "../" + name) == p;
    assert p[..|root|] == root;
    LocateBesideRoot(w, root, name);
    ReadsStored(env, w, "../" + name, root, root, root[..|root| - 1] + [name], t);
  }
}
