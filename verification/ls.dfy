/**
 * The `ls` command: the objects and the directories of a directory, each sorted, with a
 * `(locked)` marker read from the lock codes. The argument is confined to the world root
 * by a component-prefix test on the joined path, before any `..` is resolved.
 */
module Ls {
  import opened Wrappers
  import opened Text
  import opened Paths
  import opened Fs
  import opened Env
  import opened InfoReader
  import opened LockPerm
  import opened ArgParser

  const HELP_TXT := "\nUsage: ls [directory]\n\nLists the objects and places you can go to in the specified(current by default) directory.\nExample:\n- ls                        : Lists the contents of the current directory. \n- ls directory_name         : Lists the contents of specified directory\n"
  const TOO_MANY := "ls: too many arguments\nTry 'help ls' for more information."
  const OUTSIDE := "ls: Access denied outside root directory"
  const UNKNOWN_FLAG := "ls: unknown flag\nTry 'help ls' for more information."
  const PARSE_ERROR := "Error parsing arguments. Try 'help ls' for more information."
  const NONE := "   (none)\n"
  const OBJECTS_HEADING := "\nObjects:\n"
  const DIRS_HEADING := "\nFrom inside here, you can go to:\n"

  /** The two names a listing never shows. */
  predicate Hidden(name: string) {
    name == DIR_INFO || name == INFO_JSON
  }

  /** `entry.path().is_dir()` for the entry `name` of the stored directory `q`. */
  predicate EntryIsDir(w: World, q: Path, name: string) {
    q + [name] in w && w[q + [name]].Dir?
  }

  /** The visible names of one kind (directories when `dirs`), in the order given. */
  function Select(w: World, q: Path, names: seq<string>, dirs: bool): (r: seq<string>)
    ensures forall n :: n in r <==> n in names && !Hidden(n) && EntryIsDir(w, q, n) == dirs
  {
    if names == [] then []
    else
      assert forall n :: n in names <==> n == names[0] || n in names[1..];
      var rest := Select(w, q, names[1..], dirs);
      if !Hidden(names[0]) && EntryIsDir(w, q, names[0]) == dirs then [names[0]] + rest else rest
  }

  /** Selection keeps the relative order, so a sorted listing stays sorted. */
  lemma {:induction false} SelectAscending(w: World, q: Path, names: seq<string>, dirs: bool)
    requires StrictlyAscending(names)
    ensures StrictlyAscending(Select(w, q, names, dirs))
  {
    if names != [] {
      var rest := Select(w, q, names[1..], dirs);
      SelectAscending(w, q, names[1..], dirs);
      if !Hidden(names[0]) && EntryIsDir(w, q, names[0]) == dirs {
        var r := [names[0]] + rest;
        assert Select(w, q, names, dirs) == r;
        forall i, j | 0 <= i < j < |r| ensures LexLe(r[i], r[j]) && r[i] != r[j] {
          if i == 0 {
            assert r[j] == rest[j - 1] && rest[j - 1] in rest;
            var k :| 0 <= k < |names[1..]| && names[1..][k] == r[j];
            assert names[k + 1] == r[j];
          } else {
            assert r[i] == rest[i - 1] && r[j] == rest[j - 1];
          }
        }
      }
    }
  }

  /** What `list_directory_entries` returns: the files and the directories. */
  datatype Listing = Listing(files: seq<string>, dirs: seq<string>)

  /**
   * `list_directory_entries(target)`: the entries of `target` except `.dir_info` and
   * `info.json`, split into files and directories and each sorted; two empty lists when
   * the directory cannot be read.
   */
  function ListEntries(w: World, target: Path): (r: Listing)
    ensures !IsDir(w, target) ==> r == Listing([], [])
    ensures IsDir(w, target) ==>
      var q := Locate(w, target).value;
      && (forall n :: n in r.files <==> n in Children(w, q) && !Hidden(n) && !EntryIsDir(w, q, n))
      && (forall n :: n in r.dirs <==> n in Children(w, q) && !Hidden(n) && EntryIsDir(w, q, n))
    ensures StrictlyAscending(r.files) && StrictlyAscending(r.dirs)
  {
    match ReadDir(w, target)
    case Err(_) => Listing([], [])
    case Ok(names) =>
      var q := Locate(w, target).value;
      SelectAscending(w, q, names, false);
      SelectAscending(w, q, names, true);
      Listing(Select(w, q, names, false), Select(w, q, names, true))
  }

  /**
   * Every visible entry of a readable directory is listed exactly once: as a file or as a
   * directory, never both.
   */
  lemma ListingPartitions(w: World, target: Path, n: string)
    requires IsDir(w, target)
    ensures var l := ListEntries(w, target);
      var q := Locate(w, target).value;
      && (n in Children(w, q) && !Hidden(n) <==> n in l.files || n in l.dirs)
      && !(n in l.files && n in l.dirs)
  {
  }

  /** The marker of `name`: its lock bit read under `dir`, unlocked when that read fails. */
  function Marker(w: World, dir: Path, name: string): (locked: bool)
    ensures ReadLockPerm(w, Join(dir, name)).Err? ==> !locked
    ensures ReadLockPerm(w, Join(dir, name)).Ok? ==> locked == ReadLockPerm(w, Join(dir, name)).value.1
  {
    match ReadLockPerm(w, Join(dir, name))
    case Ok((_, isLocked)) => isLocked
    case Err(_) => false
  }

  function Line(name: string, locked: bool): string {
    "   " + name + (if locked then " (locked)" else "") + "\n"
  }

  /**
   * The lines of one category, each marked from the lock code found under `cur` (the
   * shell's current directory); a directory name is looked up without trailing `/`.
   */
  function Lines(w: World, cur: Path, names: seq<string>, dirs: bool): string {
    if names == [] then ""
    else
      var lookup := if dirs then TrimEndMatches(names[0], '/') else names[0];
      Line(names[0], Marker(w, cur, lookup)) + Lines(w, cur, names[1..], dirs)
  }

  /** One category of the listing, or `(none)` when it is empty. */
  function Section(w: World, cur: Path, names: seq<string>, dirs: bool): string {
    if names == [] then NONE else Lines(w, cur, names, dirs)
  }

  function Render(w: World, cur: Path, l: Listing): string {
    OBJECTS_HEADING + Section(w, cur, l.files, false) + DIRS_HEADING + Section(w, cur, l.dirs, true)
  }

  function LockedMessage(name: string): string {
    name + " is locked. To list contents, unlock it first."
  }

  function Restricted(name: string): string {
    "Attempted to list restricted directory: " + name + " Operation Not Permitted"
  }

  /** Whether the lock code of `p` reads as locked; an unreadable code does not. */
  predicate ReadsLocked(w: World, p: Path) {
    ReadLockPerm(w, p).Ok? && ReadLockPerm(w, p).value.1
  }

  /**
   * The guards of `ls` in their order: the directory to list, or the answer. With no
   * argument it is the current directory; a named one must not read as locked, must not
   * be flagged by `check_dir_info`, and its join must start with the root.
   */
  function Target(env: Env, w: World, pos: seq<string>, cur: Path, root: Path): (r: Result<Path, string>)
    ensures |pos| > 1 ==> r == Err(TOO_MANY)
    ensures |pos| == 0 ==> r == Ok(cur)
    ensures |pos| == 1 ==>
      if ReadsLocked(w, Join(cur, pos[0])) then r == Err(LockedMessage(pos[0]))
      else if env.checkDirInfo(Comps(pos[0])) then r == Err(Restricted(pos[0]))
      else if !IsPrefix(root, Join(cur, pos[0])) then r == Err(OUTSIDE)
      else r == Ok(Join(cur, pos[0]))
  {
    if |pos| > 1 then Err(TOO_MANY)
    else if |pos| == 0 then Ok(cur)
    else
      var name := pos[0];
      var p := Join(cur, name);
      match ReadLockPerm(w, p)
      case Ok((_, true)) => Err(LockedMessage(name))
      case _ =>
        if env.checkDirInfo(Comps(name)) then Err(Restricted(name))
        else if IsPrefix(root, p) then Ok(p)
        else Err(OUTSIDE)
  }

  function CannotAccess(target: Path, root: Path, e: IoErr): string {
    "ls: cannot access '" + RelativeDisplay(target, root) + "': "
    + (if e == IoErr.NotFound then "No such file or directory" else e.Message())
  }

  /**
   * The listing of `target`, or the error of reading it when both categories are empty.
   * Markers are looked up under the current directory `cur`, whatever is listed.
   */
  function Show(w: World, cur: Path, target: Path, root: Path): (r: string)
    ensures IsDir(w, target) ==> r == Render(w, cur, ListEntries(w, target))
    ensures !IsDir(w, target) ==> r == CannotAccess(target, root, ReadDir(w, target).error)
  {
    var l := ListEntries(w, target);
    if l.files == [] && l.dirs == [] then
      match ReadDir(w, target)
      case Err(e) => CannotAccess(target, root, e)
      case Ok(_) => Render(w, cur, l)
    else Render(w, cur, l)
  }

  /** `ls` once its arguments have parsed. */
  function LsWith(env: Env, w: World, pos: seq<string>, cur: Path, root: Path): (r: string)
    ensures Target(env, w, pos, cur, root).Err? ==> r == Target(env, w, pos, cur, root).error
    ensures Target(env, w, pos, cur, root).Ok? ==> r == Show(w, cur, Target(env, w, pos, cur, root).value, root)
  {
    match Target(env, w, pos, cur, root)
    case Err(m) => m
    case Ok(t) => Show(w, cur, t, root)
  }

  /**
   * A target whose lock code cannot be read is listed like an unlocked one: the lock guard
   * fails open.
   */
  lemma UnreadableLockListed(env: Env, w: World, name: string, cur: Path, root: Path)
    requires ReadLockPerm(w, Join(cur, name)).Err?
    requires !env.checkDirInfo(Comps(name)) && IsPrefix(root, Join(cur, name))
    ensures LsWith(env, w, [name], cur, root) == Show(w, cur, Join(cur, name), root)
  {
  }

  /** An entry whose lock code cannot be read under the current directory shows no marker. */
  lemma UnreadableShownUnlocked(w: World, cur: Path, name: string, rest: seq<string>)
    requires ReadLockPerm(w, Join(cur, name)).Err?
    ensures Section(w, cur, [name] + rest, false) == "   " + name + "\n" + Lines(w, cur, rest, false)
  {
    assert ([name] + rest)[1..] == rest;
  }

  /**
   * The markers of a listing depend on the current directory and the names only: two
   * directories with the same visible entries render identically from the same place,
   * whatever their own lock codes say.
   */
  lemma MarkersFromCurrentDir(w: World, cur: Path, t1: Path, t2: Path, root: Path)
    requires IsDir(w, t1) && IsDir(w, t2)
    requires ListEntries(w, t1) == ListEntries(w, t2)
    ensures Show(w, cur, t1, root) == Show(w, cur, t2, root)
  {
  }

  /** Above a stored directory other than `/`, `..` resolves to its parent. */
  lemma ParentResolves(w: World, root: Path)
    requires WF(w) && root != [] && root in w && w[root].Dir?
    ensures var up := root[..|root| - 1];
      Locate(w, root + [".."]) == Ok(up) && Locate(w, up) == Ok(up) && IsDir(w, up)
  {
    var p := root + [".."];
    var up := root[..|root| - 1];
    assert p[..|p| - 1] == root;
    LocateDirStored(w, root);
    assert Plain(up) by {
      forall i | 0 <= i < |up| ensures IsComp(up[i]) && up[i] != ".." {
        assert up[i] == root[i];
      }
    }
    if up != [] {
      assert up[..|up| - 1] in w;
    }
    LocateStored(w, up);
  }

  /** Two paths that resolve to the same stored path list the same entries. */
  lemma SameListing(w: World, p: Path, q: Path)
    requires Locate(w, p) == Locate(w, q)
    ensures ReadDir(w, p) == ReadDir(w, q) && IsDir(w, p) == IsDir(w, q)
    ensures ListEntries(w, p) == ListEntries(w, q)
  {
  }

  /**
   * The root guard does not resolve `..`: at the world root, `ls ..` passes it and lists
   * the directory above the root.
   */
  lemma ListsAboveRoot(env: Env, w: World, root: Path)
    requires WF(w) && root != [] && root in w && w[root].Dir?
    requires !env.checkDirInfo([".."])
    ensures LsWith(env, w, [".."], root, root) == Render(w, root, ListEntries(w, root[..|root| - 1]))
  {
    DotDotPasses(env, w, root);
    ParentResolves(w, root);
    SameListing(w, root + [".."], root[..|root| - 1]);
  }

  /** `..` is never locked (it has no file name) and starts with the directory it is joined to. */
  lemma DotDotPasses(env: Env, w: World, root: Path)
    requires !env.checkDirInfo([".."])
    ensures Target(env, w, [".."], root, root) == Ok(root + [".."])
  {
    CompsUp();
    var p := root + [".."];
    assert Join(root, "..") == p;
    assert IsPrefix(root, p);
    assert FileName(p).None?;
  }

  /** `ls`: accepts no flag; a help flag gives the help text and another flag its message. */
  method LsCommand(env: Env, w: World, args: seq<string>, cur: Path, root: Path) returns (r: string)
    ensures (forall i :: 0 <= i < |args| ==> !StartsWith(args[i], "-")) ==>
      r == LsWith(env, w, args, cur, root)
    ensures (exists i :: 0 <= i < |args| && StartsWith(args[i], "-")) ==>
      r == HELP_TXT || r == UNKNOWN_FLAG
    ensures forall k :: FirstRejectedAt(NewParser([]).flags, args, k) ==>
      r == if IsHelp(args[k]) then HELP_TXT else UNKNOWN_FLAG
  {
    var p := NewParser([]);
    var q, res := Parse(p, args);
    match res
    case Err(e) =>
      r := if e == "help" then HELP_TXT else if e == "unknown" then UNKNOWN_FLAG else PARSE_ERROR;
    case Ok(_) =>
      PositionalOfPlain(q.args);
      r := LsWith(env, w, PositionalArgs(q), cur, root);
  }
}
