/**
 * The `del` command: deletes a file, or a directory (recursively with `--force`), after a
 * confirmation asked before the path is checked. It consults neither the lock codes nor
 * the records, and leaves the deleted object's entry in its parent's record.
 */
module Del {
  import opened Wrappers
  import opened Text
  import opened Paths
  import opened Fs
  import opened Env
  import opened InfoReader
  import opened ArgParser
  import opened Console

  const HELP_TXT := "\nUsage: del [OPTIONS] [PATH]\n\nDelete file or directory in the current directory. By default, deletes a file.\nOptions:\n    -d, --dir       Delete a directory (must be empty unless -f is used)\n    -f, --force     Force delete (recursively delete directories)\n    -h, --help      Display this help message\n\nExamples:\n- del file.txt\n- del -d empty_directory\n- del -f directory_with_contents\n"
  const FLAGS := ["-d", "--dir", "-f", "--force"]
  const NO_DEST := "del: No destination specified. Use 'del --help' for usage."
  const RESTRICTED := "del: Cannot delete/refer restricted file or directory. Operation Not Allowed."
  const CANCELLED := "Deletion cancelled by user."
  const UNKNOWN_FLAG := "del: unknown flag\nTry 'help del' for more information."
  const PARSE_ERROR := "Error parsing arguments. Try 'help del' for more information."

  function ConfirmPrompt(dest: string): string {
    "Are you sure you want to delete '" + dest + "'? This action cannot be undone."
  }

  /**
   * `w'` is `w` with some of the stored paths at or below `q` removed and nothing else
   * changed.
   */
  predicate RemovesOnlyBelow(w: World, w': World, q: Path) {
    && (forall k :: k in w' ==> k in w && w'[k] == w[k])
    && (forall k :: k in w && !IsPrefix(q, k) ==> k in w')
  }

  /** `delete_file(path, root_dir)` */
  function DeleteFile(w: World, p: Path, root: Path): (r: Effect)
    ensures r.world == w || (IsFile(w, p) && r.world == w - {Locate(w, p).value})
    ensures !Exists(w, p) ==> r == Effect("del: " + RelativeDisplay(p, root) + ": No such file", w)
    ensures IsDir(w, p) ==> r == Effect("del: " + RelativeDisplay(p, root) + ": Is a directory (use -d flag)", w)
    ensures IsFile(w, p) ==> r == Effect("Deleted file: " + RelativeDisplay(p, root), w - {Locate(w, p).value})
  {
    var shown := RelativeDisplay(p, root);
    if !Exists(w, p) then Effect("del: " + shown + ": No such file", w)
    else if IsDir(w, p) then Effect("del: " + shown + ": Is a directory (use -d flag)", w)
    else match RemoveFile(w, p)
      case Ok(w1) => Effect("Deleted file: " + shown, w1)
      case Err(e) => Effect("del: " + shown + ": " + e.Message(), w)
  }

  /** The directory's only entry is its `.dir_info`. */
  predicate OnlyDirInfo(w: World, p: Path) {
    ReadDir(w, p).Ok? && |ReadDir(w, p).value| == 1 && Exists(w, p + [DIR_INFO])
  }

  /** `remove_dir`, reported as `delete_directory` reports it. */
  function RemoveReported(w: World, p: Path, root: Path, force: bool): Effect {
    var shown := RelativeDisplay(p, root);
    match (if force then RemoveDirAll(w, p) else RemoveDir(w, p))
    case Ok(w1) => Effect("Deleted directory: " + shown, w1)
    case Err(e) => Effect("del: " + shown + ": " + e.Message(), w)
  }

  /**
   * `delete_directory(path, root_dir, force)`: a directory holding only `.dir_info` loses
   * it first and is then removed; otherwise `remove_dir_all` with `force`, else
   * `remove_dir`, which refuses a non-empty directory.
   */
  function DeleteDirectory(w: World, p: Path, root: Path, force: bool): (r: Effect)
    ensures !Exists(w, p) ==> r == Effect("del: " + RelativeDisplay(p, root) + ": No such directory", w)
    ensures Exists(w, p) && !IsDir(w, p) ==> r == Effect("del: " + RelativeDisplay(p, root) + ": Not a directory", w)
    ensures IsDir(w, p) && !OnlyDirInfo(w, p) ==> r == RemoveReported(w, p, root, force)
  {
    if !Exists(w, p) then Effect("del: " + RelativeDisplay(p, root) + ": No such directory", w)
    else if !IsDir(w, p) then Effect("del: " + RelativeDisplay(p, root) + ": Not a directory", w)
    else if OnlyDirInfo(w, p) then
      var w1 := match RemoveDirAll(w, p + [DIR_INFO]) case Ok(x) => x case Err(_) => w;
      RemoveReported(w1, p, root, false)
    else RemoveReported(w, p, root, force)
  }

  lemma RemoveReportedBelow(w: World, p: Path, root: Path, force: bool)
    ensures Locate(w, p).Ok? ==> RemovesOnlyBelow(w, RemoveReported(w, p, root, force).world, Locate(w, p).value)
    ensures Locate(w, p).Err? ==> RemoveReported(w, p, root, force).world == w
  {
  }

  /** `remove_dir_all` of the `.dir_info` of a directory removes only below that directory. */
  lemma DirInfoRemovalBelow(w: World, p: Path)
    requires IsDir(w, p)
    ensures var w1 := match RemoveDirAll(w, p + [DIR_INFO]) case Ok(x) => x case Err(_) => w;
      RemovesOnlyBelow(w, w1, Locate(w, p).value)
  {
    var q := Locate(w, p).value;
    LocateDirOfDir(w, p);
    assert (p + [DIR_INFO])[..|p|] == p;
    if RemoveDirAll(w, p + [DIR_INFO]).Ok? {
      assert Locate(w, p + [DIR_INFO]).value == q + [DIR_INFO];
      forall k | k in w && IsPrefix(q + [DIR_INFO], k) ensures IsPrefix(q, k) {
        assert k[..|q|] == (q + [DIR_INFO])[..|q|];
      }
    }
  }

  /** `RemovesOnlyBelow` composes when the second step works below the same path. */
  lemma RemovesTrans(w: World, w1: World, w2: World, q: Path)
    requires RemovesOnlyBelow(w, w1, q) && RemovesOnlyBelow(w1, w2, q)
    ensures RemovesOnlyBelow(w, w2, q)
  {
  }

  /** Deleting a directory removes nothing outside it. */
  lemma DeleteDirectoryBelow(w: World, p: Path, root: Path, force: bool)
    requires Exists(w, p)
    ensures RemovesOnlyBelow(w, DeleteDirectory(w, p, root, force).world, Locate(w, p).value)
  {
    var q := Locate(w, p).value;
    if IsDir(w, p) {
      if OnlyDirInfo(w, p) {
        var w1 := match RemoveDirAll(w, p + [DIR_INFO]) case Ok(x) => x case Err(_) => w;
        DirInfoRemovalBelow(w, p);
        RemoveReportedBelow(w1, p, root, false);
        if Locate(w1, p).Ok? {
          LocateGrows(w1, w, p);
          RemovesTrans(w, w1, RemoveReported(w1, p, root, false).world, q);
        }
      } else {
        RemoveReportedBelow(w, p, root, force);
      }
    }
  }

  /**
   * `validate_deletion_path`: the normalised join must start with the root and exist; the
   * root itself passes.
   */
  function ValidateDeletionPath(env: Env, w: World, dest: string, cur: Path, root: Path): (r: Result<Path, string>)
    ensures r.Ok? <==> IsPrefix(root, env.normalize(Join(cur, dest))) && Exists(w, env.normalize(Join(cur, dest)))
    ensures r.Ok? ==> r.value == env.normalize(Join(cur, dest))
  {
    var full := env.normalize(Join(cur, dest));
    if !IsPrefix(root, full) then Err("del: " + dest + ": Cannot delete outside of root directory")
    else if !Exists(w, full) then Err("del: " + dest + ": No such file or directory")
    else Ok(full)
  }

  /** The first argument that does not start with `-`, or the empty string. */
  function FirstPlain(args: seq<string>): (r: string)
    ensures r != [] ==> r in args && !StartsWith(r, "-")
  {
    if args == [] then ""
    else if !StartsWith(args[0], "-") then args[0]
    else FirstPlain(args[1..])
  }

  /** The target is the first positional argument. */
  lemma {:induction false} FirstPlainPositional(args: seq<string>)
    ensures FirstPlain(args) == if Positional(args) == [] then "" else Positional(args)[0]
  {
    if args != [] {
      FirstPlainPositional(args[1..]);
    }
  }

  /** Directory deletion is chosen by `-d`/`--dir` or by the target being a directory. */
  predicate DirMode(w: World, args: seq<string>, full: Path) {
    "-d" in args || "--dir" in args || IsDir(w, full)
  }

  predicate Force(args: seq<string>) {
    "-f" in args || "--force" in args
  }

  /** The deletion itself, once the path is valid. */
  function Delete(w: World, args: seq<string>, full: Path, root: Path): (r: Effect)
    ensures r.world != w ==> Locate(w, full).Ok? && RemovesOnlyBelow(w, r.world, Locate(w, full).value)
  {
    if DirMode(w, args, full) then
      if Exists(w, full) then
        DeleteDirectoryBelow(w, full, root, Force(args));
        DeleteDirectory(w, full, root, Force(args))
      else DeleteDirectory(w, full, root, Force(args))
    else DeleteFile(w, full, root)
  }

  /**
   * `del` once its arguments have parsed: a target must be given and not be restricted;
   * then the confirmation is asked, and only then is the path checked and the deletion
   * made.
   */
  function DelWith(env: Env, w: World, args: seq<string>, cur: Path, root: Path, prompter: Prompter): (r: Run)
    ensures FirstPlain(args) == "" ==> r == Run(Reply(NO_DEST, []), w)
    ensures FirstPlain(args) != "" && env.checkDirInfo(Comps(FirstPlain(args))) ==> r == Run(Reply(RESTRICTED, []), w)
    ensures FirstPlain(args) != "" && !env.checkDirInfo(Comps(FirstPlain(args))) ==>
      && r.out.Reply? && r.out.asked == [ConfirmPrompt(FirstPlain(args))]
      && (!prompter.confirms ==> r.world == w && r.out.text == CANCELLED)
      && (prompter.confirms && ValidateDeletionPath(env, w, FirstPlain(args), cur, root).Err? ==>
            r.world == w && r.out.text == ValidateDeletionPath(env, w, FirstPlain(args), cur, root).error)
    ensures r.world != w ==>
      && FirstPlain(args) != "" && prompter.confirms
      && ValidateDeletionPath(env, w, FirstPlain(args), cur, root).Ok?
      && var full := ValidateDeletionPath(env, w, FirstPlain(args), cur, root).value;
         r.world == Delete(w, args, full, root).world
  {
    var dest := FirstPlain(args);
    if dest == "" then Run(Reply(NO_DEST, []), w)
    else if env.checkDirInfo(Comps(dest)) then Run(Reply(RESTRICTED, []), w)
    else
      var asked := [ConfirmPrompt(dest)];
      if !prompter.confirms then Run(Reply(CANCELLED, asked), w)
      else match ValidateDeletionPath(env, w, dest, cur, root)
        case Err(e) => Run(Reply(e, asked), w)
        case Ok(full) =>
          var d := Delete(w, args, full, root);
          Run(Reply(d.text, asked), d.world)
  }

  /**
   * Whatever `del` does, it removes only the target and what lies below it: every other
   * stored path, the parent's record included, is left as it was.
   */
  lemma DelOnlyRemovesTarget(env: Env, w: World, args: seq<string>, cur: Path, root: Path, prompter: Prompter)
    requires DelWith(env, w, args, cur, root, prompter).world != w
    ensures var full := env.normalize(Join(cur, FirstPlain(args)));
      Locate(w, full).Ok?
      && RemovesOnlyBelow(w, DelWith(env, w, args, cur, root, prompter).world, Locate(w, full).value)
  {
  }

  /**
   * The record of the directory holding the target is not below the target (unless the
   * target is itself a `.dir_info`), so `del` never removes the target's entry from it.
   */
  lemma DelKeepsParentRecord(env: Env, w: World, args: seq<string>, cur: Path, root: Path, prompter: Prompter)
    requires DelWith(env, w, args, cur, root, prompter).world != w
    ensures var full := env.normalize(Join(cur, FirstPlain(args)));
      var q := Locate(w, full).value;
      var w' := DelWith(env, w, args, cur, root, prompter).world;
      q != [] && q[|q| - 1] != DIR_INFO && InfoPath(q[..|q| - 1]) in w ==>
        InfoPath(q[..|q| - 1]) in w' && w'[InfoPath(q[..|q| - 1])] == w[InfoPath(q[..|q| - 1])]
  {
    DelOnlyRemovesTarget(env, w, args, cur, root, prompter);
    var full := env.normalize(Join(cur, FirstPlain(args)));
    var q := Locate(w, full).value;
    if q != [] && q[|q| - 1] != DIR_INFO {
      var ip := InfoPath(q[..|q| - 1]);
      assert !IsPrefix(q, ip) by {
        if |q| <= |ip| {
          assert ip[|q| - 1] == DIR_INFO;
        }
      }
    }
  }

  /**
   * There is no lock check: once confirmed, a file below the root is removed whatever lock
   * code its parent's record holds for it.
   */
  lemma DelIgnoresLocks(env: Env, w: World, args: seq<string>, cur: Path, root: Path, prompter: Prompter)
    requires FirstPlain(args) != "" && !env.checkDirInfo(Comps(FirstPlain(args))) && prompter.confirms
    requires "-d" !in args && "--dir" !in args
    requires var full := env.normalize(Join(cur, FirstPlain(args)));
      IsPrefix(root, full) && IsFile(w, full)
    ensures var full := env.normalize(Join(cur, FirstPlain(args)));
      DelWith(env, w, args, cur, root, prompter)
        == Run(Reply("Deleted file: " + RelativeDisplay(full, root), [ConfirmPrompt(FirstPlain(args))]),
               w - {Locate(w, full).value})
  {
  }

  /** Once confirmed and validated, `del` answers what the deletion answers. */
  lemma DelAfterConfirm(env: Env, w: World, args: seq<string>, cur: Path, root: Path, prompter: Prompter)
    requires FirstPlain(args) != "" && !env.checkDirInfo(Comps(FirstPlain(args))) && prompter.confirms
    requires ValidateDeletionPath(env, w, FirstPlain(args), cur, root).Ok?
    ensures var full := env.normalize(Join(cur, FirstPlain(args)));
      var d := Delete(w, args, full, root);
      DelWith(env, w, args, cur, root, prompter) == Run(Reply(d.text, [ConfirmPrompt(FirstPlain(args))]), d.world)
  {
  }

  /** A stored directory resolves to itself. */
  lemma StoredDir(w: World, root: Path)
    requires WF(w) && root in w && w[root].Dir?
    ensures Locate(w, root) == Ok(root) && IsDir(w, root) && Exists(w, root)
  {
    LocateStored(w, root);
  }

  /**
   * The root passes the path check: `del -f` of a path that normalises to the world root
   * removes the whole world below it when the root holds more than its record.
   */
  lemma ForcedDelOfRoot(env: Env, w: World, args: seq<string>, cur: Path, root: Path, prompter: Prompter)
    requires WF(w) && root != [] && root in w && w[root].Dir? && !OnlyDirInfo(w, root)
    requires FirstPlain(args) != "" && !env.checkDirInfo(Comps(FirstPlain(args))) && prompter.confirms
    requires env.normalize(Join(cur, FirstPlain(args))) == root && Force(args)
    ensures DelWith(env, w, args, cur, root, prompter).world == w - Below(w, root)
  {
    RootAdmitted(w, root);
    ForcedDirDel(env, w, args, cur, root, prompter);
  }

  /** The root is below itself and a directory other than `/`. */
  lemma RootAdmitted(w: World, root: Path)
    requires WF(w) && root != [] && root in w && w[root].Dir?
    ensures IsPrefix(root, root) && IsDir(w, root) && Locate(w, root).value == root
  {
    StoredDir(w, root);
    assert root[..|root|] == root;
  }

  /** Once confirmed, `del -f` of a valid directory other than `/` removes it and all below it. */
  lemma ForcedDirDel(env: Env, w: World, args: seq<string>, cur: Path, root: Path, prompter: Prompter)
    requires FirstPlain(args) != "" && !env.checkDirInfo(Comps(FirstPlain(args))) && prompter.confirms
    requires var full := env.normalize(Join(cur, FirstPlain(args)));
      IsPrefix(root, full) && IsDir(w, full) && Locate(w, full).value != [] && !OnlyDirInfo(w, full)
    requires Force(args)
    ensures var full := env.normalize(Join(cur, FirstPlain(args)));
      DelWith(env, w, args, cur, root, prompter).world == w - Below(w, Locate(w, full).value)
  {
    var full := env.normalize(Join(cur, FirstPlain(args)));
    ForceRemovesDir(w, full, root);
    assert Delete(w, args, full, root) == DeleteDirectory(w, full, root, true);
    DelAfterConfirm(env, w, args, cur, root, prompter);
  }

  /** A forced directory deletion removes the directory and all below it. */
  lemma ForceRemovesDir(w: World, p: Path, root: Path)
    requires IsDir(w, p) && Locate(w, p).value != [] && !OnlyDirInfo(w, p)
    ensures DeleteDirectory(w, p, root, true).world == w - Below(w, Locate(w, p).value)
  {
  }

  /** `del`: parses `-d`/`--dir`/`-f`/`--force`; a help flag or an unknown flag answers. */
  method DelCommand(env: Env, w: World, args: seq<string>, cur: Path, root: Path, prompter: Prompter)
    returns (r: Run)
    ensures (forall i :: 0 <= i < |args| ==> !Rejected(NewParser(FLAGS).flags, args[i])) ==>
      r == DelWith(env, w, args, cur, root, prompter)
    ensures (exists i :: 0 <= i < |args| && Rejected(NewParser(FLAGS).flags, args[i])) ==>
      r == Run(Reply(HELP_TXT, []), w) || r == Run(Reply(UNKNOWN_FLAG, []), w)
    ensures forall k :: FirstRejectedAt(NewParser(FLAGS).flags, args, k) ==>
      r == Run(Reply(if IsHelp(args[k]) then HELP_TXT else UNKNOWN_FLAG, []), w)
  {
    var p := NewParser(FLAGS);
    var q, res := Parse(p, args);
    match res
    case Err(e) =>
      var text := if e == "help" then HELP_TXT else if e == "unknown" then UNKNOWN_FLAG else PARSE_ERROR;
      r := Run(Reply(text, []), w);
    case Ok(_) =>
      r := DelWith(env, w, args, cur, root, prompter);
  }
}
