/**
 * The `tap` command: creates an empty file, or a directory together with its own record.
 * The parent's record is not told about the new object.
 */
module Tap {
  import opened Wrappers
  import opened Text
  import opened Paths
  import opened Fs
  import opened Env
  import opened InfoReader
  import opened ValidSekai
  import opened ArgParser
  import opened Console

  const HELP_TXT := "\nUsage: tap [OPTIONS] [NAME]\n\nCreate file or directory in the current directory. By default, creates a file.\nOptions:\n    -d, --dir       Create a directory\n    -h, --help      Display this help message\n\nExamples:\n- tap new_file\n- tap -d new_directory\n- tap new_dir/    # usage of trailing slash to create a directory\n"
  const FLAGS := ["-d", "--dir", "-h", "--help"]
  const NO_DEST := "tap: No destination specified. Use 'tap --help' for usage."
  const RESTRICTED := "tap: Cannot create/refer restricted files or directory. Operation Not Allowed."
  const UNKNOWN_FLAG := "tap: unknown flag\nTry 'help tap' for more information."
  const PARSE_ERROR := "Error parsing arguments. Try 'help tap' for more information."

  /** The first argument that is not one of the command's flags, or the empty string. */
  function Destination(args: seq<string>): (r: string)
    ensures (forall i :: 0 <= i < |args| ==> args[i] in FLAGS) ==> r == ""
    ensures r != "" ==> r in args && r !in FLAGS
  {
    if args == [] then ""
    else if args[0] !in FLAGS then args[0]
    else Destination(args[1..])
  }

  /** The destination is the first argument that is not a flag: every argument before it is one. */
  lemma {:induction false} DestinationIsFirst(args: seq<string>, i: nat)
    requires i < |args| && args[i] !in FLAGS
    ensures exists j :: 0 <= j <= i && args[j] == Destination(args) && forall k :: 0 <= k < j ==> args[k] in FLAGS
  {
    if args[0] in FLAGS {
      DestinationIsFirst(args[1..], i - 1);
      var j :| 0 <= j <= i - 1 && args[1..][j] == Destination(args[1..])
             && forall k :: 0 <= k < j ==> args[1..][k] in FLAGS;
      assert args[j + 1] == Destination(args);
      forall k | 0 <= k < j + 1 ensures args[k] in FLAGS {
        if k > 0 {
          assert args[k] == args[1..][k - 1];
        }
      }
    } else {
      assert args[0] == Destination(args);
    }
  }

  /**
   * `handle_destination`: the normalised join must start with the root and name nothing
   * yet.
   */
  function HandleDestination(env: Env, w: World, dest: string, cur: Path, root: Path): (r: Result<Path, string>)
    ensures r.Ok? <==> IsPrefix(root, env.normalize(Join(cur, dest))) && !Exists(w, env.normalize(Join(cur, dest)))
    ensures r.Ok? ==> r.value == env.normalize(Join(cur, dest))
  {
    var full := env.normalize(Join(cur, dest));
    if !IsPrefix(root, full) then Err("tap: " + dest + ": Cannot create outside of root directory")
    else if Exists(w, full) then Err("tap: " + dest + ": File or directory already exists")
    else Ok(full)
  }

  /** `create_file(destination, current_dir, root_dir)`: an empty file at the plain join. */
  function CreateFile(w: World, dest: string, cur: Path, root: Path): (r: Effect)
    ensures Exists(w, Join(cur, dest)) ==> r == Effect("tap: " + dest + ": File or directory already exists", w)
    ensures r.world != w ==> !Exists(w, Join(cur, dest)) && Read(r.world, Join(cur, dest)) == Ok(Text(""))
    ensures !Exists(w, Join(cur, dest)) && Locate(w, Join(cur, dest)).Ok? ==>
      r.text == "Created file: " + RelativeDisplay(Join(cur, dest), root)
  {
    var p := Join(cur, dest);
    if Exists(w, p) then Effect("tap: " + dest + ": File or directory already exists", w)
    else match Write(w, p, Text(""))
      case Ok(w1) =>
        WriteThenRead(w, p, Text(""));
        Effect("Created file: " + RelativeDisplay(p, root), w1)
      case Err(e) => Effect("tap: " + dest + ": " + e.Message(), w)
  }

  /**
   * `create_directory(destination, current_dir, root_dir)`: the directory, then its record
   * through `create_dir_info` with `home` false.
   */
  function CreateDirectory(env: Env, w: World, dest: string, cur: Path, root: Path): (r: Effect)
    ensures Exists(w, Join(cur, dest)) ==>
      r == Effect("tap: " + RelativeDisplay(Join(cur, dest), root) + ": Directory already exists", w)
    ensures r.world != w ==> !Exists(w, Join(cur, dest)) && CreateDir(w, Join(cur, dest)).Ok?
    ensures !Exists(w, Join(cur, dest)) && CreateDir(w, Join(cur, dest)).Ok? ==>
      r.text == (if CreateDirInfo(env, CreateDir(w, Join(cur, dest)).value, Join(cur, dest), false).0
                 then "Created directory: " else "tap: Failed to create .dir_info: ")
                + RelativeDisplay(Join(cur, dest), root)
  {
    var p := Join(cur, dest);
    var shown := RelativeDisplay(p, root);
    if Exists(w, p) then Effect("tap: " + shown + ": Directory already exists", w)
    else match CreateDir(w, p)
      case Ok(w1) =>
        var (ok, w2) := CreateDirInfo(env, w1, p, false);
        if !ok then Effect("tap: Failed to create .dir_info: " + shown, w2)
        else Effect("Created directory: " + shown, w2)
      case Err(e) => Effect("tap: " + shown + ": " + e.Message(), w)
  }

  /** A directory is asked for by `-d`/`--dir` or by a trailing `/`. */
  predicate DirMode(args: seq<string>, dest: string) {
    "-d" in args || "--dir" in args || EndsWith(dest, "/")
  }

  /**
   * The creation once the destination is valid; a directory name loses its trailing `/`s.
   * Either creation keeps everything stored.
   */
  function Create(env: Env, w: World, args: seq<string>, dest: string, cur: Path, root: Path): (r: Effect)
    ensures WF(w) ==> Extends(w, r.world)
  {
    if DirMode(args, dest) then
      if WF(w) then
        CreateDirectoryExtends(env, w, TrimEndMatches(dest, '/'), cur, root);
        CreateDirectory(env, w, TrimEndMatches(dest, '/'), cur, root)
      else CreateDirectory(env, w, TrimEndMatches(dest, '/'), cur, root)
    else
      CreateFileExtends(w, dest, cur, root);
      CreateFile(w, dest, cur, root)
  }

  /** `tap` once its arguments have parsed. */
  function TapWith(env: Env, w: World, args: seq<string>, cur: Path, root: Path): (r: Run)
    ensures r.out.Reply? && r.out.asked == []
    ensures Destination(args) == "" ==> r == Run(Reply(NO_DEST, []), w)
    ensures Destination(args) != "" && env.checkDirInfo(Comps(Destination(args))) ==> r == Run(Reply(RESTRICTED, []), w)
    ensures HandleDestination(env, w, Destination(args), cur, root).Err? ==> r.world == w
    ensures Destination(args) != "" && !env.checkDirInfo(Comps(Destination(args)))
            && HandleDestination(env, w, Destination(args), cur, root).Err? ==>
      r.out.text == HandleDestination(env, w, Destination(args), cur, root).error
    ensures r.world != w ==>
      && Destination(args) != "" && !env.checkDirInfo(Comps(Destination(args)))
      && HandleDestination(env, w, Destination(args), cur, root).Ok?
      && r.world == Create(env, w, args, Destination(args), cur, root).world
  {
    var dest := Destination(args);
    if dest == "" then Run(Reply(NO_DEST, []), w)
    else if env.checkDirInfo(Comps(dest)) then Run(Reply(RESTRICTED, []), w)
    else match HandleDestination(env, w, dest, cur, root)
      case Err(e) => Run(Reply(e, []), w)
      case Ok(_) =>
        var c := Create(env, w, args, dest, cur, root);
        Run(Reply(c.text, []), c.world)
  }

  // ---------------------------------------------------------------------------
  // What `tap` leaves
  // ---------------------------------------------------------------------------

  /** Adding a path that was not stored keeps everything stored. */
  lemma AddFresh(w: World, q: Path, n: Node)
    requires q !in w
    ensures Extends(w, w[q := n])
  {
  }

  lemma ExtendsTrans(w: World, w1: World, w2: World)
    requires Extends(w, w1) && Extends(w1, w2)
    ensures Extends(w, w2)
  {
  }

  /** In a well-formed world nothing is stored below a path that is not stored. */
  lemma {:induction false} NothingBelowMissing(w: World, q: Path, k: Path)
    requires WF(w) && q !in w && |q| <= |k| && k[..|q|] == q
    ensures k !in w
    decreases |k|
  {
    if |k| == |q| {
      assert k == q;
    } else {
      assert k[..|k| - 1][..|q|] == q;
      NothingBelowMissing(w, q, k[..|k| - 1]);
      if k in w {
        ParentStored(w, k);
      }
    }
  }

  /** The record of a directory created at `q` resolves to the two components below `q`. */
  lemma RecordBelowNewDir(w1: World, w2: World, p: Path, q: Path)
    requires Locate(w1, p) == Ok(q) && q in w1 && w1[q].Dir?
    requires Extends(w1, w2)
    requires Locate(w2, InfoPath(p)).Ok?
    ensures Locate(w2, InfoPath(p)).value == q + [DIR_INFO, INFO_JSON]
  {
    LocateDirOfDir(w1, p);
    LocateDirGrows(w1, w2, p);
    RecordLocation(w2, p, q);
  }

  /** Writing the record of a directory created at `q` keeps everything stored before it. */
  lemma RecordWriteExtends(w: World, w1: World, w2: World, p: Path, q: Path, body: Body)
    requires WF(w) && q !in w && w1 == w[q := Dir] && Locate(w1, p) == Ok(q)
    requires Extends(w1, w2) && Write(w2, InfoPath(p), body).Ok?
    ensures Extends(w1, Write(w2, InfoPath(p), body).value)
  {
    RecordBelowNewDir(w1, w2, p, q);
    var k := q + [DIR_INFO, INFO_JSON];
    assert k[..|q|] == q;
    NothingBelowMissing(w, q, k);
  }

  /** `create_dir_info` leaves the world it started from, the one with `.dir_info`, or that one with the record written. */
  lemma CreateDirInfoSteps(env: Env, w1: World, p: Path)
    ensures var r := CreateDirInfo(env, w1, p, false).1;
      r == w1 || (CreateDirAll(w1, p + [DIR_INFO]).Ok? &&
        var w2 := CreateDirAll(w1, p + [DIR_INFO]).value;
        r == w2 || exists body :: Write(w2, InfoPath(p), body) == Ok(r))
  {
    var r := CreateDirInfo(env, w1, p, false);
    if FileName(p) != Some(DIR_INFO) && CreateDirAll(w1, p + [DIR_INFO]).Ok? {
      var w2 := CreateDirAll(w1, p + [DIR_INFO]).value;
      var rec := Reconciled(env, w2, p, false, ExistingInfo(w1, p));
      var body := Doc(ToJson(rec));
      if r.0 {
        assert WriteInfo(w2, InfoPath(p), rec) == Ok(r.1);
        assert Write(w2, InfoPath(p), body) == Ok(r.1);
      } else {
        assert r.1 == w2;
      }
    }
  }

  /**
   * `create_dir_info` on a new directory keeps the directory and everything that was stored
   * before it.
   */
  lemma CreateDirInfoExtends(env: Env, w: World, w1: World, p: Path, q: Path)
    requires WF(w) && q !in w && w1 == w[q := Dir] && Locate(w1, p) == Ok(q)
    ensures Extends(w1, CreateDirInfo(env, w1, p, false).1)
    ensures Extends(w, CreateDirInfo(env, w1, p, false).1)
  {
    AddFresh(w, q, Dir);
    CreateDirInfoSteps(env, w1, p);
    var r := CreateDirInfo(env, w1, p, false).1;
    if r != w1 {
      var w2 := CreateDirAll(w1, p + [DIR_INFO]).value;
      CreateDirAllGrows(w1, p + [DIR_INFO]);
      if r != w2 {
        var body :| Write(w2, InfoPath(p), body) == Ok(r);
        RecordWriteExtends(w, w1, w2, p, q, body);
      }
    }
    ExtendsTrans(w, w1, r);
  }

  /** A directory creation keeps everything stored. */
  lemma CreateDirectoryExtends(env: Env, w: World, dest: string, cur: Path, root: Path)
    requires WF(w)
    ensures Extends(w, CreateDirectory(env, w, dest, cur, root).world)
  {
    if CreateDirectory(env, w, dest, cur, root).world != w {
      CreateDirectoryWorld(env, w, dest, cur, root);
      NewDirStays(env, w, Join(cur, dest));
    }
  }

  /** A file creation keeps everything stored. */
  lemma CreateFileExtends(w: World, dest: string, cur: Path, root: Path)
    ensures Extends(w, CreateFile(w, dest, cur, root).world)
  {
    var p := Join(cur, dest);
    if !Exists(w, p) && Write(w, p, Text("")).Ok? {
      AddFresh(w, Locate(w, p).value, File(Text("")));
    }
  }

  /**
   * `tap` only adds: every stored path keeps its entry, so in particular the parent's record
   * still lists exactly what it listed before, without the new object.
   */
  lemma TapOnlyAdds(env: Env, w: World, args: seq<string>, cur: Path, root: Path)
    requires WF(w)
    ensures Extends(w, TapWith(env, w, args, cur, root).world)
  {
  }

  /** A created file is empty and lies at the join of the current directory and the name. */
  lemma TapCreatesEmptyFile(env: Env, w: World, args: seq<string>, cur: Path, root: Path)
    requires TapWith(env, w, args, cur, root).world != w && !DirMode(args, Destination(args))
    ensures Read(TapWith(env, w, args, cur, root).world, Join(cur, Destination(args))) == Ok(Text(""))
  {
  }

  /** A directory creation that changed the world is the new directory followed by its record. */
  lemma CreateDirectoryWorld(env: Env, w: World, dest: string, cur: Path, root: Path)
    requires CreateDirectory(env, w, dest, cur, root).world != w
    ensures var p := Join(cur, dest);
      && !Exists(w, p) && CreateDir(w, p).Ok?
      && CreateDirectory(env, w, dest, cur, root).world == CreateDirInfo(env, CreateDir(w, p).value, p, false).1
  {
  }

  /**
   * A new directory stays a directory while `create_dir_info` runs in it, and everything
   * stored before is kept.
   */
  lemma NewDirStays(env: Env, w: World, p: Path)
    requires WF(w) && !Exists(w, p) && CreateDir(w, p).Ok?
    ensures IsDir(CreateDirInfo(env, CreateDir(w, p).value, p, false).1, p)
    ensures Extends(w, CreateDirInfo(env, CreateDir(w, p).value, p, false).1)
  {
    var q := Locate(w, p).value;
    var w1 := CreateDir(w, p).value;
    CreateDirIsDir(w, p);
    LocateGrows(w, w1, p);
    CreateDirInfoExtends(env, w, w1, p, q);
    LocateGrows(w1, CreateDirInfo(env, w1, p, false).1, p);
  }

  /** A directory creation that changed the world leaves a directory at the join. */
  lemma CreateDirectoryIsDir(env: Env, w: World, dest: string, cur: Path, root: Path)
    requires WF(w) && CreateDirectory(env, w, dest, cur, root).world != w
    ensures IsDir(CreateDirectory(env, w, dest, cur, root).world, Join(cur, dest))
  {
    CreateDirectoryWorld(env, w, dest, cur, root);
    NewDirStays(env, w, Join(cur, dest));
  }

  /**
   * A created directory is a directory at the join of the current directory and the name
   * without its trailing `/`s.
   */
  lemma TapCreatesDirectory(env: Env, w: World, args: seq<string>, cur: Path, root: Path)
    requires WF(w)
    requires TapWith(env, w, args, cur, root).world != w && DirMode(args, Destination(args))
    ensures IsDir(TapWith(env, w, args, cur, root).world, Join(cur, TrimEndMatches(Destination(args), '/')))
  {
    CreateDirectoryIsDir(env, w, TrimEndMatches(Destination(args), '/'), cur, root);
  }

  /** `tap`: accepts `-d`/`--dir`; a help flag or an unknown flag answers. */
  method TapCommand(env: Env, w: World, args: seq<string>, cur: Path, root: Path) returns (r: Run)
    ensures (forall i :: 0 <= i < |args| ==> !Rejected(NewParser(FLAGS).flags, args[i])) ==>
      r == TapWith(env, w, args, cur, root)
    ensures (exists i :: 0 <= i < |args| && Rejected(NewParser(FLAGS).flags, args[i])) ==>
      r == Run(Reply(HELP_TXT, []), w) || r == Run(Reply(UNKNOWN_FLAG, []), w)
    ensures forall k :: FirstRejectedAt(NewParser(FLAGS).flags, args, k) ==>
      r == Run(Reply(if IsHelp(args[k]) then HELP_TXT else UNKNOWN_FLAG, []), w)
  {
    var p := NewParser(FLAGS);
    var q, res := Parse(p, args);
    match res
    case Err(e) =>
      var text := if e == "help" then HELP_TXT else if e == "unknown" then UNKNOWN_FLAG else PARSE_ERROR;
      r := Run(Reply(text, []), w);
    case Ok(_) =>
      r := TapWith(env, w, args, cur, root);
  }
}
