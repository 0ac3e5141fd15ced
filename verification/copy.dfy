/**
 * The `copy` command: copies or moves (`-x`) a file or, with `-r`, a directory tree, and
 * carries the object's entry from the source's parent record to the destination's. Its
 * guards run in a fixed order: the path count, restricted names, the `-f` confirmation,
 * confinement and existence, then the locks of both paths.
 */
module Copy {
  import opened Wrappers
  import opened Text
  import opened Paths
  import opened Fs
  import opened Env
  import opened InfoReader
  import opened ValidSekai
  import opened LockPerm
  import opened ArgParser
  import opened Console

  const HELP_TXT :=
    "\n"
    + "Usage: copy [OPTIONS] <SOURCE> <DESTINATION>\n"
    + "\n"
    + "Copy or move files/directories. By default, performs a copy operation.\n"
    + "Options:\n"
    + "    -x, --cut       Move instead of copy (cut/paste)\n"
    + "    -r, --recursive Copy directories recursively\n"
    + "    -f, --force     Overwrite existing files\n"
    + "    -h, --help      Display this help message\n"
    + "\n"
    + "Examples:\n"
    + "- copy file.txt new_file.txt         # Copy file\n"
    + "- copy -r dir/ new_dir/              # Recursive directory copy\n"
    + "- copy -x old.txt new.txt            # Move (cut/paste) file\n"
    + "- copy -x -r old_dir/ new_location/    # Move directory recursively\n"
    + "- copy -f /path/to/existing_file.txt /path/to/new_file.txt  # Force overwrite existing file\n"
  const FLAGS := ["-x", "--cut", "-r", "--recursive", "-f", "--force", "-h", "--help"]
  const TWO_PATHS := "copy: Requires exactly two paths (source and destination)"
  const RESTRICTED := "copy: Cannot copy/refer restricted file or directory. Operation Not Allowed."
  const FORCE_PROMPT := "Are you sure you want to force overwrite files?"
  const FORCE_CANCELLED := "Operation of force overwriting cancelled. No files copied/moved."
  const LOCK_MESSAGE := "Cannot copy/move locked file/directory. Unlock it first."
  const FILE_EXISTS := "Destination file exists (use -f to overwrite)"
  const DIR_EXISTS := "Destination directory exists (use -f to overwrite)"
  const USE_F := "Use -f to overwrite"
  const USE_R := "Use -r for directories"
  const NEEDS_R := "Cannot copy directory without -r flag"
  const MOVE_RESTRICTED := "Cannot move a restricted file/directory. Operation not allowed"
  const TOO_DEEP := "directory tree deeper than the model follows"
  const UNKNOWN_FLAG := "copy: unknown flag\nTry 'help copy' for more information."
  const PARSE_ERROR := "Error parsing arguments. Try 'help copy' for more information."

  /** The arguments that are not flags, in order. */
  function PathArgs(args: seq<string>): (r: seq<string>)
    ensures |r| <= |args|
    ensures forall x :: x in r <==> x in args && x !in FLAGS
  {
    if args == [] then []
    else if args[0] in FLAGS then PathArgs(args[1..])
    else [args[0]] + PathArgs(args[1..])
  }

  /** Filtering distributes over concatenation, so the paths keep their order and repeats. */
  lemma {:induction false} PathArgsAppend(a: seq<string>, b: seq<string>)
    ensures PathArgs(a + b) == PathArgs(a) + PathArgs(b)
  {
    if a == [] {
      assert a + b == b;
    } else {
      assert (a + b)[0] == a[0];
      assert (a + b)[1..] == a[1..] + b;
      PathArgsAppend(a[1..], b);
    }
  }

  /** Arguments none of which is a flag are all paths, in order. */
  lemma {:induction false} PathArgsOfPlain(args: seq<string>)
    requires forall i :: 0 <= i < |args| ==> args[i] !in FLAGS
    ensures PathArgs(args) == args
  {
    if args != [] {
      PathArgsOfPlain(args[1..]);
    }
  }

  /** Arguments that are all flags give no path. */
  lemma {:induction false} PathArgsOfFlags(args: seq<string>)
    requires forall i :: 0 <= i < |args| ==> args[i] in FLAGS
    ensures PathArgs(args) == []
  {
    if args != [] {
      PathArgsOfFlags(args[1..]);
    }
  }

  /**
   * Whatever flags surround them, the first non-flag argument is the source (`paths[0]`) and
   * the second the destination (`paths[1]`).
   */
  lemma {:induction false} PathArgsSourceDest(f1: seq<string>, src: string, f2: seq<string>, dest: string, f3: seq<string>)
    requires forall i :: 0 <= i < |f1| ==> f1[i] in FLAGS
    requires forall i :: 0 <= i < |f2| ==> f2[i] in FLAGS
    requires forall i :: 0 <= i < |f3| ==> f3[i] in FLAGS
    requires src !in FLAGS && dest !in FLAGS
    ensures PathArgs(f1 + [src] + f2 + [dest] + f3) == [src, dest]
  {
    var a1 := f1 + [src];
    var a2 := a1 + f2;
    var a3 := a2 + [dest];
    PathArgsOfFlags(f1);
    PathArgsOfFlags(f2);
    PathArgsOfFlags(f3);
    PathArgsOfPlain([src]);
    PathArgsOfPlain([dest]);
    PathArgsAppend(f1, [src]);
    assert PathArgs(a1) == [src];
    PathArgsAppend(a1, f2);
    assert PathArgs(a2) == [src];
    PathArgsAppend(a2, [dest]);
    assert PathArgs(a3) == [src, dest];
    PathArgsAppend(a3, f3);
  }

  /** What one step of the operation answers, with the world it leaves (also on failure). */
  datatype Attempt = Attempt(res: Result<string, IoErr>, world: World)

  function Verb(cut: bool): string {
    if cut then "Moved" else "Copied"
  }

  // ---------------------------------------------------------------------------
  // Guards
  // ---------------------------------------------------------------------------

  /**
   * `validate_paths`: both normalised joins must start with the root, the source first,
   * and the source must exist.
   */
  function ValidatePaths(env: Env, w: World, src: string, dest: string, cur: Path, root: Path)
    : (r: Result<(Path, Path), string>)
    ensures r.Ok? <==>
      && IsPrefix(root, env.normalize(Join(cur, src)))
      && IsPrefix(root, env.normalize(Join(cur, dest)))
      && Exists(w, env.normalize(Join(cur, src)))
    ensures r.Ok? ==> r.value == (env.normalize(Join(cur, src)), env.normalize(Join(cur, dest)))
    ensures !IsPrefix(root, env.normalize(Join(cur, src))) ==>
      r == Err("copy: " + src + ": Cannot operate outside of root directory")
  {
    var s := env.normalize(Join(cur, src));
    var d := env.normalize(Join(cur, dest));
    if !IsPrefix(root, s) then Err("copy: " + src + ": Cannot operate outside of root directory")
    else if !IsPrefix(root, d) then Err("copy: " + dest + ": Cannot operate outside of root directory")
    else if !Exists(w, s) then Err("copy: " + src + ": No such file or directory")
    else Ok((s, d))
  }

  /** The lock check of the source, then of the destination. */
  function Locks(env: Env, w: World, s: Path, d: Path): (r: Result<(), string>)
    ensures r.Ok? <==>
      OperationLockedPerm(env.worldDir, w, s, "copy", LOCK_MESSAGE).Ok?
      && OperationLockedPerm(env.worldDir, w, d, "copy", LOCK_MESSAGE).Ok?
    ensures OperationLockedPerm(env.worldDir, w, s, "copy", LOCK_MESSAGE).Err? ==>
      r == OperationLockedPerm(env.worldDir, w, s, "copy", LOCK_MESSAGE)
  {
    var _ :- OperationLockedPerm(env.worldDir, w, s, "copy", LOCK_MESSAGE);
    OperationLockedPerm(env.worldDir, w, d, "copy", LOCK_MESSAGE)
  }

  // ---------------------------------------------------------------------------
  // Metadata
  // ---------------------------------------------------------------------------

  /**
   * `move_obj_info(src, dest, cut)`: the destination's parent record gains the source
   * object's properties under the destination's name (unless it already lists that name);
   * with `cut` the source's entry is removed first. Nothing moves when a path has no parent
   * or no name or the source record cannot be read; a failure part-way keeps what was done.
   */
  function MoveObjInfo(w: World, src: Path, dest: Path, cut: bool): (r: World)
    ensures src == [] || dest == [] || FileName(src).None? || FileName(dest).None? ==> r == w
    ensures src != [] && FileName(src).Some? && GetObjInfo(w, ParentInfoPath(src), FileName(src).value).Err? ==> r == w
  {
    if src == [] || dest == [] then w
    else match (FileName(src), FileName(dest))
      case (Some(sn), Some(dn)) =>
        (match GetObjInfo(w, ParentInfoPath(src), sn)
         case Err(_) => w
         case Ok(bag) =>
           var w1 := if cut then DelObj(w, src, sn) else Ok(w);
           match w1
           case Err(_) => w
           case Ok(w1) =>
             match AddObj(w1, dest, dn, Some(bag))
             case Ok(w2) => w2
             case Err(_) => w1)
      case _ => w
  }

  /**
   * A copy gives a destination name its parent record does not list the source object's
   * properties, and keeps the record's other entries.
   */
  lemma MoveObjInfoCopies(w: World, src: Path, dest: Path)
    requires src != [] && dest != [] && FileName(src).Some? && FileName(dest).Some?
    requires GetObjInfo(w, ParentInfoPath(src), FileName(src).value).Ok?
    requires AddObj(w, dest, FileName(dest).value, Some(GetObjInfo(w, ParentInfoPath(src), FileName(src).value).value)).Ok?
    requires FileName(dest).value !in ReadValidateInfo(w, ParentInfoPath(dest)).value.objects
    ensures var ip := ParentInfoPath(dest);
      var before := ReadValidateInfo(w, ip).value;
      var after := Read(MoveObjInfo(w, src, dest, false), ip);
      after.Ok? && after.value.Doc? && FromJson(after.value.doc).Some?
      && var rec := FromJson(after.value.doc).value;
      rec.objects.Keys == before.objects.Keys + {FileName(dest).value}
      && rec.objects[FileName(dest).value] == GetObjInfo(w, ParentInfoPath(src), FileName(src).value).value
      && forall n :: n in before.objects ==> rec.objects[n] == before.objects[n]
  {
    var bag := GetObjInfo(w, ParentInfoPath(src), FileName(src).value).value;
    AddObjReadBack(w, dest, FileName(dest).value, Some(bag));
  }

  /** A destination name its parent record already lists keeps its old entry: nothing changes. */
  lemma MoveObjInfoKeepsTracked(w: World, src: Path, dest: Path)
    requires src != [] && dest != [] && FileName(src).Some? && FileName(dest).Some?
    requires ReadValidateInfo(w, ParentInfoPath(dest)).Ok?
    requires FileName(dest).value in ReadValidateInfo(w, ParentInfoPath(dest)).value.objects
    ensures MoveObjInfo(w, src, dest, false) == w
  {
  }

  /**
   * A source object the readable record does not list still gives the destination an
   * entry: an empty bag, without a `locked` code.
   */
  lemma MoveObjInfoUntracked(w: World, src: Path, dest: Path)
    requires src != [] && dest != [] && FileName(src).Some? && FileName(dest).Some?
    requires ReadValidateInfo(w, ParentInfoPath(src)).Ok?
    requires FileName(src).value !in ReadValidateInfo(w, ParentInfoPath(src)).value.objects
    requires AddObj(w, dest, FileName(dest).value, Some(map[])).Ok? && ReadValidateInfo(w, ParentInfoPath(dest)).Ok?
    requires FileName(dest).value !in ReadValidateInfo(w, ParentInfoPath(dest)).value.objects
    ensures var after := Read(MoveObjInfo(w, src, dest, false), ParentInfoPath(dest));
      after.Ok? && after.value.Doc? && FromJson(after.value.doc).Some?
      && FileName(dest).value in FromJson(after.value.doc).value.objects
      && FromJson(after.value.doc).value.objects[FileName(dest).value] == map[]
  {
    AddObjReadBack(w, dest, FileName(dest).value, Some(map[]));
  }

  /**
   * A move within one directory renames the entry: the record afterwards lists the new
   * name with the old name's properties and no longer lists the old name.
   */
  lemma MoveObjInfoRenames(w: World, src: Path, dest: Path)
    requires src != [] && dest != [] && FileName(src).Some? && FileName(dest).Some?
    requires ParentInfoPath(src) == ParentInfoPath(dest) && FileName(src) != FileName(dest)
    requires ReadValidateInfo(w, ParentInfoPath(src)).Ok?
    requires FileName(src).value in ReadValidateInfo(w, ParentInfoPath(src)).value.objects
    requires FileName(dest).value !in ReadValidateInfo(w, ParentInfoPath(src)).value.objects
    requires DelObj(w, src, FileName(src).value).Ok?
    requires AddObj(DelObj(w, src, FileName(src).value).value, dest, FileName(dest).value,
                    Some(ReadValidateInfo(w, ParentInfoPath(src)).value.objects[FileName(src).value])).Ok?
    ensures var ip := ParentInfoPath(src);
      var before := ReadValidateInfo(w, ip).value;
      var after := Read(MoveObjInfo(w, src, dest, true), ip);
      after.Ok? && after.value.Doc? && FromJson(after.value.doc).Some?
      && var rec := FromJson(after.value.doc).value;
      rec.objects.Keys == before.objects.Keys - {FileName(src).value} + {FileName(dest).value}
      && rec.objects[FileName(dest).value] == before.objects[FileName(src).value]
  {
    var sn := FileName(src).value;
    var dn := FileName(dest).value;
    var ip := ParentInfoPath(src);
    var before := ReadValidateInfo(w, ip).value;
    var bag := before.objects[sn];
    var w1 := DelObj(w, src, sn).value;
    MoveObjInfoCut(w, src, dest, bag);
    DelObjReadBack(w, src, sn);
    AddObjAfterDel(w1, dest, dn, bag, before.(objects := before.objects - {sn}));
  }

  /** A move whose source record reads and whose two edits succeed ends with the addition. */
  lemma MoveObjInfoCut(w: World, src: Path, dest: Path, bag: Bag)
    requires src != [] && dest != [] && FileName(src).Some? && FileName(dest).Some?
    requires GetObjInfo(w, ParentInfoPath(src), FileName(src).value) == Ok(bag)
    requires DelObj(w, src, FileName(src).value).Ok?
    requires AddObj(DelObj(w, src, FileName(src).value).value, dest, FileName(dest).value, Some(bag)).Ok?
    ensures MoveObjInfo(w, src, dest, true)
         == AddObj(DelObj(w, src, FileName(src).value).value, dest, FileName(dest).value, Some(bag)).value
  {
  }

  /** The addition to a record read as `before` lists the name with the bag beside the rest. */
  lemma AddObjAfterDel(w1: World, dest: Path, dn: string, bag: Bag, before: Info)
    requires dest != [] && ReadValidateInfo(w1, ParentInfoPath(dest)) == Ok(before) && dn !in before.objects
    requires AddObj(w1, dest, dn, Some(bag)).Ok?
    ensures var after := Read(AddObj(w1, dest, dn, Some(bag)).value, ParentInfoPath(dest));
      after.Ok? && after.value.Doc? && FromJson(after.value.doc).Some?
      && var rec := FromJson(after.value.doc).value;
      rec.objects.Keys == before.objects.Keys + {dn} && rec.objects[dn] == bag
  {
    AddObjReadBack(w1, dest, dn, Some(bag));
  }

  // ---------------------------------------------------------------------------
  // Copying
  // ---------------------------------------------------------------------------

  /**
   * `copy_file(src, dest, root_dir, force, cut)`: an existing destination is refused
   * without `force` and removed with it; then the contents are copied and the metadata
   * carried over.
   */
  function CopyOneFile(w: World, src: Path, dest: Path, root: Path, force: bool, cut: bool): (r: Attempt)
    ensures Exists(w, dest) && !force ==> r == Attempt(Err(Other(FILE_EXISTS)), w)
    ensures r.res.Ok? ==> IsFile(w, src)
    ensures r.res.Ok? ==> r.res.value == Verb(cut) + " " + RelativeDisplay(src, root) + " to " + RelativeDisplay(dest, root)
  {
    if Exists(w, dest) && !force then Attempt(Err(Other(FILE_EXISTS)), w)
    else
      var removed := if Exists(w, dest) then RemoveFile(w, dest) else Ok(w);
      match removed
      case Err(e) => Attempt(Err(e), w)
      case Ok(w1) =>
        match CopyFile(w1, src, dest)
        case Err(e) => Attempt(Err(e), w1)
        case Ok(w2) =>
          CopiedFromSame(w, w1, src, dest);
          Attempt(Ok(Verb(cut) + " " + RelativeDisplay(src, root) + " to " + RelativeDisplay(dest, root)),
                  MoveObjInfo(w2, src, dest, false))
  }

  /** A source that is a file after the destination was removed was a file before. */
  lemma CopiedFromSame(w: World, w1: World, src: Path, dest: Path)
    requires (if Exists(w, dest) then RemoveFile(w, dest) else Ok(w)) == Ok(w1)
    requires IsFile(w1, src)
    ensures IsFile(w, src)
  {
    if Exists(w, dest) {
      var q := Locate(w, src);
      LocateGrows(w1, w, src);
    }
  }

  /**
   * `copy_directory(src, dest, root_dir, force, cut)`: an existing destination is refused
   * without `force` and removed with it; the destination is created, the metadata carried
   * over, and every entry but `.dir_info` copied, stopping at the first failure. The new
   * directory gets no record of its own.
   */
  function CopyDirectory(w: World, src: Path, dest: Path, root: Path, force: bool, cut: bool, fuel: nat): (r: Attempt)
    ensures Exists(w, dest) && !force ==> r == Attempt(Err(Other(DIR_EXISTS)), w)
    decreases fuel, 0
  {
    if Exists(w, dest) && !force then Attempt(Err(Other(DIR_EXISTS)), w)
    else
      var removed := if Exists(w, dest) then RemoveDirAll(w, dest) else Ok(w);
      match removed
      case Err(e) => Attempt(Err(e), w)
      case Ok(w1) =>
        match CreateDirAll(w1, dest)
        case Err(e) => Attempt(Err(e), w1)
        case Ok(w2) =>
          var w3 := MoveObjInfo(w2, src, dest, false);
          match ReadDir(w3, src)
          case Err(e) => Attempt(Err(e), w3)
          case Ok(names) =>
            if fuel == 0 then Attempt(Err(Other(TOO_DEEP)), w3)
            else
              var r := CopyEntries(w3, src, dest, names, root, force, cut, fuel - 1);
              if r.res.Err? then r
              else Attempt(Ok(Verb(cut) + " directory: " + RelativeDisplay(src, root) + " → " + RelativeDisplay(dest, root)),
                           r.world)
  }

  /** The loop of `copy_directory` over the listed names; `.dir_info` entries are passed over. */
  function CopyEntries(w: World, src: Path, dest: Path, names: seq<string>, root: Path, force: bool, cut: bool, fuel: nat)
    : (r: Attempt)
    ensures (forall i :: 0 <= i < |names| ==> names[i] == DIR_INFO) ==> r == Attempt(Ok(""), w)
    decreases fuel, |names|
  {
    if names == [] then Attempt(Ok(""), w)
    else if names[0] == DIR_INFO then CopyEntries(w, src, dest, names[1..], root, force, cut, fuel)
    else
      var e := src + [names[0]];
      var n := dest + [names[0]];
      var r := if IsDir(w, e) then CopyDirectory(w, e, n, root, force, cut, fuel) else CopyOneFile(w, e, n, root, force, cut);
      if r.res.Err? then r else CopyEntries(r.world, src, dest, names[1..], root, force, cut, fuel)
  }

  // ---------------------------------------------------------------------------
  // Moving
  // ---------------------------------------------------------------------------

  /** `fs::rename`, falling back to a copy followed by a removal of the source. */
  function RenameOrCopy(w: World, src: Path, dest: Path, root: Path, force: bool): (r: Attempt)
    ensures RenameFile(w, src, dest).Ok? ==> r == Attempt(Ok(""), RenameFile(w, src, dest).value)
  {
    match RenameFile(w, src, dest)
    case Ok(w1) => Attempt(Ok(""), w1)
    case Err(_) =>
      var c := CopyOneFile(w, src, dest, root, force, true);
      if c.res.Err? then c
      else match RemoveFile(c.world, src)
        case Ok(w2) => Attempt(Ok(""), w2)
        case Err(e) => Attempt(Err(e), c.world)
  }

  function Moved(src: Path, dest: Path, root: Path): string {
    "Moved " + RelativeDisplay(src, root) + " → " + RelativeDisplay(dest, root)
  }

  /**
   * Which subdirectory step a move takes: the one the program runs, or the corrected one
   * in which the recursive call alone moves the subdirectory.
   */
  datatype Variant = AsWritten | Corrected

  /**
   * `move_item(src, dest, root_dir, recursive, force)`. A source named `.dir_info` is
   * refused, a directory needs `recursive`, and an existing destination needs `force`.
   * A directory is recreated with its own record, its entries moved one by one, and the
   * source removed; a file is renamed. Metadata moves before the data. The program is
   * `MoveItem(AsWritten, ...)`.
   */
  function MoveItem(v: Variant, env: Env, w: World, src: Path, dest: Path, root: Path, recursive: bool, force: bool, fuel: nat)
    : (r: Attempt)
    ensures src != [] && src[|src| - 1] == DIR_INFO ==> r == Attempt(Err(InvalidInput(MOVE_RESTRICTED)), w)
    ensures FileName(src) != Some(DIR_INFO) && IsDir(w, src) && !recursive ==> r == Attempt(Err(Other(USE_R)), w)
    ensures FileName(src) != Some(DIR_INFO) && (recursive || !IsDir(w, src)) && Exists(w, dest) && !force ==>
      r == Attempt(Err(Other(USE_F)), w)
    decreases fuel, 0
  {
    if src != [] && src[|src| - 1] == DIR_INFO then Attempt(Err(InvalidInput(MOVE_RESTRICTED)), w)
    else if IsDir(w, src) then
      if !recursive then Attempt(Err(Other(USE_R)), w)
      else if Exists(w, dest) && !force then Attempt(Err(Other(USE_F)), w)
      else match CreateDirAll(w, dest)
        case Err(e) => Attempt(Err(e), w)
        case Ok(w1) =>
          var (ok, w2) := CreateDirInfo(env, w1, dest, false);
          if !ok then Attempt(Err(Other("Failed to create .dir_info in " + RelativeDisplay(dest, root))), w2)
          else
            var w3 := MoveObjInfo(w2, src, dest, true);
            match ReadDir(w3, src)
            case Err(e) => Attempt(Err(e), w3)
            case Ok(names) =>
              if fuel == 0 then Attempt(Err(Other(TOO_DEEP)), w3)
              else
                var r := MoveEntries(v, env, w3, src, dest, names, root, force, fuel - 1);
                if r.res.Err? then r
                else match RemoveDirAll(r.world, src)
                  case Err(e) => Attempt(Err(e), r.world)
                  case Ok(w4) => Attempt(Ok(Moved(src, dest, root)), w4)
    else if Exists(w, dest) && !force then Attempt(Err(Other(USE_F)), w)
    else
      var w1 := MoveObjInfo(w, src, dest, true);
      var r := RenameOrCopy(w1, src, dest, root, force);
      if r.res.Err? then r else Attempt(Ok(Moved(src, dest, root)), r.world)
  }

  /**
   * The loop of `move_item` over the listed names: the entry's metadata first, then a
   * subdirectory is recreated with its record, moved recursively and removed, and a file
   * renamed. `.dir_info` entries are passed over.
   */
  function MoveEntries(v: Variant, env: Env, w: World, src: Path, dest: Path, names: seq<string>, root: Path, force: bool, fuel: nat)
    : (r: Attempt)
    ensures (forall i :: 0 <= i < |names| ==> names[i] == DIR_INFO) ==> r == Attempt(Ok(""), w)
    decreases fuel, |names| + 3
  {
    if names == [] then Attempt(Ok(""), w)
    else if names[0] == DIR_INFO then MoveEntries(v, env, w, src, dest, names[1..], root, force, fuel)
    else
      var e := src + [names[0]];
      var n := dest + [names[0]];
      var w1 := MoveObjInfo(w, e, n, true);
      var r := if IsDir(w1, e) then SubdirStep(v, env, w1, e, n, root, force, fuel) else RenameOrCopy(w1, e, n, root, force);
      if r.res.Err? then r else MoveEntries(v, env, r.world, src, dest, names[1..], root, force, fuel)
  }

  /**
   * One subdirectory inside `move_item`, as written: the destination is created with its
   * record, the recursive call moves the subdirectory (and removes it), and the
   * subdirectory is then removed once more. The recursive call refuses the destination just
   * created unless `force` is given, and the second removal finds nothing to remove, so
   * this step never succeeds once the recursive call has run.
   */
  function MoveSubdirAsWritten(env: Env, w: World, e: Path, n: Path, root: Path, force: bool, fuel: nat): (r: Attempt)
    ensures CreateDirAll(w, n).Err? ==> r == Attempt(Err(CreateDirAll(w, n).error), w)
    decreases fuel, 1
  {
    match CreateDirAll(w, n)
    case Err(err) => Attempt(Err(err), w)
    case Ok(w1) =>
      var (ok, w2) := CreateDirInfo(env, w1, n, false);
      if !ok then Attempt(Err(Other("Failed to create .dir_info in " + RelativeDisplay(n, root))), w2)
      else
        var r := MoveItem(AsWritten, env, w2, e, n, root, true, force, fuel);
        if r.res.Err? then r
        else match RemoveDirAll(r.world, e)
          case Err(err) => Attempt(Err(err), r.world)
          case Ok(w3) => Attempt(Ok(""), w3)
  }

  /** One subdirectory inside the loop of `move_item`, by the variant's step. */
  function SubdirStep(v: Variant, env: Env, w: World, e: Path, n: Path, root: Path, force: bool, fuel: nat): (r: Attempt)
    ensures v.AsWritten? ==> r == MoveSubdirAsWritten(env, w, e, n, root, force, fuel)
    ensures v.Corrected? ==> r == MoveSubdir(env, w, e, n, root, force, fuel)
    decreases fuel, 2
  {
    match v
    case AsWritten => MoveSubdirAsWritten(env, w, e, n, root, force, fuel)
    case Corrected => MoveSubdir(env, w, e, n, root, force, fuel)
  }

  /**
   * One subdirectory inside `move_item`, corrected: the recursive call alone creates the
   * destination with its record, moves the entries and removes the subdirectory.
   */
  function MoveSubdir(env: Env, w: World, e: Path, n: Path, root: Path, force: bool, fuel: nat): (r: Attempt)
    ensures r.world == MoveItem(Corrected, env, w, e, n, root, true, force, fuel).world
    ensures r.res.Ok? <==> MoveItem(Corrected, env, w, e, n, root, true, force, fuel).res.Ok?
    decreases fuel, 1
  {
    var r := MoveItem(Corrected, env, w, e, n, root, true, force, fuel);
    if r.res.Err? then r else Attempt(Ok(""), r.world)
  }

  // ---------------------------------------------------------------------------
  // The subdirectory step of a move
  // ---------------------------------------------------------------------------

  /** A directory moved successfully is no longer a directory at its old path. */
  lemma MoveItemRemovesSource(v: Variant, env: Env, w: World, src: Path, dest: Path, root: Path, force: bool, fuel: nat)
    requires IsDir(w, src) && MoveItem(v, env, w, src, dest, root, true, force, fuel).res.Ok?
    ensures !IsDir(MoveItem(v, env, w, src, dest, root, true, force, fuel).world, src)
  {
    var w4 := MoveItem(v, env, w, src, dest, root, true, force, fuel).world;
    MoveItemEndsWithRemoval(v, env, w, src, dest, root, force, fuel);
    var w' :| RemoveDirAll(w', src) == Ok(w4);
    RemovedIsGone(w', src);
  }

  /** A directory move that succeeds ends with the removal of the source. */
  lemma MoveItemEndsWithRemoval(v: Variant, env: Env, w: World, src: Path, dest: Path, root: Path, force: bool, fuel: nat)
    requires IsDir(w, src) && MoveItem(v, env, w, src, dest, root, true, force, fuel).res.Ok?
    ensures exists w' :: RemoveDirAll(w', src) == Ok(MoveItem(v, env, w, src, dest, root, true, force, fuel).world)
  {
    var w1 := CreateDirAll(w, dest).value;
    var w2 := CreateDirInfo(env, w1, dest, false).1;
    var w3 := MoveObjInfo(w2, src, dest, true);
    var names := ReadDir(w3, src).value;
    var r := MoveEntries(v, env, w3, src, dest, names, root, force, fuel - 1);
    assert RemoveDirAll(r.world, src) == Ok(MoveItem(v, env, w, src, dest, root, true, force, fuel).world);
  }

  /** After `remove_dir_all` the path names no directory. */
  lemma RemovedIsGone(w: World, p: Path)
    requires RemoveDirAll(w, p).Ok?
    ensures !IsDir(RemoveDirAll(w, p).value, p)
  {
    var w1 := RemoveDirAll(w, p).value;
    if Locate(w1, p).Ok? {
      LocateGrows(w1, w, p);
      assert IsPrefix(Locate(w, p).value, Locate(w, p).value);
    }
  }

  /**
   * As written, a subdirectory is never moved without `force`: once its destination and
   * record are created, the recursive call finds the destination existing and refuses.
   */
  lemma AsWrittenNeedsForce(env: Env, w: World, e: Path, n: Path, root: Path, fuel: nat)
    requires FileName(e) != Some(DIR_INFO)
    requires CreateDirAll(w, n).Ok? && CreateDirInfo(env, CreateDirAll(w, n).value, n, false).0
    ensures MoveSubdirAsWritten(env, w, e, n, root, false, fuel).res == Err(Other(USE_F))
  {
    var w1 := CreateDirAll(w, n).value;
    CreateDirInfoKeepsDir(env, w1, n, false);
  }

  /**
   * As written, a subdirectory is never moved with `force` either: when the recursive call
   * succeeds it has removed the subdirectory, and the second removal fails.
   */
  lemma AsWrittenRemovesTwice(env: Env, w: World, e: Path, n: Path, root: Path, force: bool, fuel: nat)
    requires CreateDirAll(w, n).Ok? && CreateDirInfo(env, CreateDirAll(w, n).value, n, false).0
    requires var w2 := CreateDirInfo(env, CreateDirAll(w, n).value, n, false).1;
      IsDir(w2, e) && MoveItem(AsWritten, env, w2, e, n, root, true, force, fuel).res.Ok?
    ensures MoveSubdirAsWritten(env, w, e, n, root, force, fuel).res.Err?
  {
    var w2 := CreateDirInfo(env, CreateDirAll(w, n).value, n, false).1;
    MoveItemRemovesSource(AsWritten, env, w2, e, n, root, force, fuel);
  }

  /**
   * In the program's move loop, a subdirectory whose destination and record can be created
   * stops the move without `-f`: the loop answers "Use -f to overwrite".
   */
  lemma AsWrittenLoopStops(env: Env, w: World, src: Path, dest: Path, names: seq<string>, root: Path, fuel: nat)
    requires names != [] && names[0] != DIR_INFO
    requires var w1 := MoveObjInfo(w, src + [names[0]], dest + [names[0]], true);
      IsDir(w1, src + [names[0]]) && CreateDirAll(w1, dest + [names[0]]).Ok?
      && CreateDirInfo(env, CreateDirAll(w1, dest + [names[0]]).value, dest + [names[0]], false).0
    ensures MoveEntries(AsWritten, env, w, src, dest, names, root, false, fuel).res == Err(Other(USE_F))
  {
    var e, n := src + [names[0]], dest + [names[0]];
    AsWrittenNeedsForce(env, MoveObjInfo(w, e, n, true), e, n, root, fuel);
  }

  /** Corrected, a subdirectory step that succeeds leaves no directory at the source. */
  lemma MoveSubdirRemovesSource(env: Env, w: World, e: Path, n: Path, root: Path, force: bool, fuel: nat)
    requires IsDir(w, e) && MoveSubdir(env, w, e, n, root, force, fuel).res.Ok?
    ensures !IsDir(MoveSubdir(env, w, e, n, root, force, fuel).world, e)
  {
    MoveItemRemovesSource(Corrected, env, w, e, n, root, force, fuel);
  }

  /** `create_dir_info` in a directory just created succeeds. */
  lemma FreshDirInfo(env: Env, w: World, d: Path, name: string)
    requires WF(w) && d in w && w[d].Dir? && Plain(d + [name]) && d + [name] !in w
    requires name != DIR_INFO
    ensures CreateDirInfo(env, w[d + [name] := Dir], d + [name], false).0
  {
    var n := d + [name];
    var w1 := w[n := Dir];
    var di := n + [DIR_INFO];
    var ip := InfoPath(n);
    assert n[..|n| - 1] == d;
    CreateDirAllChild(w, d, name);
    CreateDirAllWF(w, n);
    InfoPathsPlain(n);
    assert di[..|di| - 1] == n;
    if di in w { ParentStored(w, di); }
    CreateDirAllChild(w1, n, DIR_INFO);
    var wa := w1[di := Dir];
    CreateDirAllWF(w1, di);
    assert ip[..|ip| - 1] == di;
    if ip in w { ParentStored(w, ip); }
    WriteStored(wa, ip, Doc(ToJson(Reconciled(env, wa, n, false, ExistingInfo(w1, n)))));
  }

  /**
   * Creating a free subdirectory of a stored directory and then its record stores exactly
   * the directory, its `.dir_info` and the record, and keeps the tree well formed.
   */
  lemma SubdirCreated(env: Env, w: World, d: Path, name: string)
    requires WF(w) && d in w && w[d].Dir? && Plain(d + [name]) && d + [name] !in w && name != DIR_INFO
    ensures var n := d + [name];
      var w2 := CreateDirInfo(env, w[n := Dir], n, false).1;
      && WF(w2) && w2.Keys == w.Keys + {n, n + [DIR_INFO], InfoPath(n)}
      && (forall k :: k in w ==> w2[k] == w[k]) && w2[n] == Dir
  {
    var n := d + [name];
    var w1 := w[n := Dir];
    assert n[..|n| - 1] == d;
    CreateDirAllChild(w, d, name);
    CreateDirAllWF(w, n);
    FreshDirInfo(env, w, d, name);
    FirstRun(env, w1, n, false);
    var di := n + [DIR_INFO];
    var ip := InfoPath(n);
    assert di !in w && ip !in w by {
      assert di[..|di| - 1] == n && ip[..|ip| - 1] == di;
      if di in w { ParentStored(w, di); }
      if ip in w { ParentStored(w, ip); }
    }
    var wa := w1[di := Dir];
    var rec := Reconciled(env, wa, n, false, ExistingInfo(w1, n));
    assert CreateDirInfo(env, w1, n, false).1 == wa[ip := File(Doc(ToJson(rec)))];
    ThreeAdded(w, n, di, ip, File(Doc(ToJson(rec))));
  }

  /** Adding three absent keys to a world keeps every old entry and adds exactly those keys. */
  lemma ThreeAdded(w: World, n: Path, di: Path, ip: Path, f: Node)
    requires n !in w && di !in w && ip !in w && ip != n && ip != di && di != n
    ensures var w2 := w[n := Dir][di := Dir][ip := f];
      && w2.Keys == w.Keys + {n, di, ip}
      && (forall k :: k in w ==> w2[k] == w[k]) && w2[n] == Dir
  {
  }

  /** A stored path of `w2` that `w` lacks, other than the three created, is a record. */
  lemma PreparedChildren(w: World, w2: World, w3: World, e: Path, n: Path)
    requires e != [] && e[|e| - 1] != DIR_INFO && !IsPrefix(e, n)
    requires w2.Keys == w.Keys + {n, n + [DIR_INFO], InfoPath(n)}
    requires AddsRecords(w2, w3)
    ensures forall c :: c in Children(w3, e) && c != DIR_INFO ==> c in Children(w, e)
  {
    forall c | c in Children(w3, e) && c != DIR_INFO ensures c in Children(w, e) {
      var k := e + [c];
      ChildrenMember(w3, e, c);
      ChildrenMember(w, e, c);
      assert k[|k| - 2] == e[|e| - 1];
      assert k[..|e|] == e;
    }
  }

  /**
   * The world a corrected subdirectory step leaves before its loop: the destination and its
   * record created, the metadata carried. The source keeps its listing, the destination is a
   * directory, and the tree stays well formed.
   */
  lemma MoveSubdirPrepared(env: Env, w: World, e: Path, d: Path, name: string)
    requires WF(w) && e in w && w[e].Dir? && e != [] && e[|e| - 1] != DIR_INFO
    requires d in w && w[d].Dir? && Plain(d + [name]) && d + [name] !in w && name != DIR_INFO
    requires !IsPrefix(e, d + [name])
    ensures var n := d + [name];
      var w2 := CreateDirInfo(env, w[n := Dir], n, false).1;
      var w3 := MoveObjInfo(w2, e, n, true);
      && WF(w3) && e in w3 && w3[e] == Dir && n in w3 && w3[n] == Dir
      && forall c :: c in Children(w3, e) && c != DIR_INFO ==> c in Children(w, e)
  {
    var n := d + [name];
    SubdirCreated(env, w, d, name);
    var w2 := CreateDirInfo(env, w[n := Dir], n, false).1;
    var w3 := MoveObjInfo(w2, e, n, true);
    MoveObjInfoAdds(w2, e, n, true);
    assert WellFormed(e) && WellFormed(n);
    PreparedChildren(w, w2, w3, e, n);
  }

  /**
   * Corrected, a subdirectory holding nothing but its `.dir_info` moves without `-f` into a
   * free name of a stored directory: the step succeeds, the destination is a directory and
   * the source is gone. As written, the same step fails with "Use -f to overwrite".
   */
  lemma {:induction false} MoveSubdirSucceeds(env: Env, w: World, e: Path, d: Path, name: string, root: Path, fuel: nat)
    requires WF(w) && e in w && w[e].Dir? && e != [] && e[|e| - 1] != DIR_INFO
    requires d in w && w[d].Dir? && Plain(d + [name]) && d + [name] !in w && name != DIR_INFO
    requires !IsPrefix(e, d + [name])
    requires forall c :: c in Children(w, e) ==> c == DIR_INFO
    requires fuel > 0
    ensures var r := MoveSubdir(env, w, e, d + [name], root, false, fuel);
      r.res.Ok? && IsDir(r.world, d + [name]) && !IsDir(r.world, e)
    ensures MoveSubdirAsWritten(env, w, e, d + [name], root, false, fuel).res == Err(Other(USE_F))
  {
    var n := d + [name];
    var w1 := w[n := Dir];
    assert n[..|n| - 1] == d;
    LocateStored(w, n);
    LocateStored(w, e);
    CreateDirAllChild(w, d, name);
    assert CreateDirAll(w, n) == Ok(w1);
    FreshDirInfo(env, w, d, name);
    var w2 := CreateDirInfo(env, w1, n, false).1;
    var w3 := MoveObjInfo(w2, e, n, true);
    MoveSubdirPrepared(env, w, e, d, name);
    LocateStored(w3, e);
    var names := ReadDir(w3, e).value;
    forall i | 0 <= i < |names| ensures names[i] == DIR_INFO {
      assert names[i] in names;
    }
    assert MoveEntries(Corrected, env, w3, e, n, names, root, false, fuel - 1) == Attempt(Ok(""), w3);
    var w4 := w3 - Below(w3, e);
    assert RemoveDirAll(w3, e) == Ok(w4);
    assert MoveItem(Corrected, env, w, e, n, root, true, false, fuel) == Attempt(Ok(Moved(e, n, root)), w4);
    assert n !in Below(w3, e);
    RemoveDirAllWF(w3, e);
    LocateStored(w4, n);
    MoveSubdirRemovesSource(env, w, e, n, root, false, fuel);
    assert FileName(e) != Some(DIR_INFO);
    AsWrittenNeedsForce(env, w, e, n, root, fuel);
  }

  // ---------------------------------------------------------------------------
  // What a copy without `-f` leaves
  // ---------------------------------------------------------------------------

  /** A record path: `<dir>/.dir_info/info.json`. */
  predicate IsRecord(k: Path) {
    |k| >= 2 && k[|k| - 2] == DIR_INFO && k[|k| - 1] == INFO_JSON
  }

  /**
   * `w'` keeps every stored path of `w`; the only entries whose contents may differ are
   * record files, which stay files.
   */
  predicate Preserves(w: World, w': World) {
    forall k :: k in w ==> k in w' && (w'[k] == w[k] || (IsRecord(k) && w[k].File? && w'[k].File?))
  }

  lemma PreservesTrans(w: World, w1: World, w2: World)
    requires Preserves(w, w1) && Preserves(w1, w2)
    ensures Preserves(w, w2)
  {
  }

  /** `w'` keeps `w` as `Preserves` says, and every path it adds is a record file. */
  predicate AddsRecords(w: World, w': World) {
    Preserves(w, w') && forall k :: k in w' && k !in w ==> IsRecord(k)
  }

  /** Writing a directory's record adds at most that record, and keeps a tree well formed. */
  lemma RecordWriteAdds(w: World, p: Path, body: Body)
    requires Write(w, InfoPath(p), body).Ok?
    ensures AddsRecords(w, Write(w, InfoPath(p), body).value)
    ensures WF(w) && WellFormed(p) ==> WF(Write(w, InfoPath(p), body).value)
  {
    RecordWritePreserves(w, p, body);
    var ip := InfoPath(p);
    assert ip[..|ip| - 1] == p + [DIR_INFO];
    assert (p + [DIR_INFO])[..|p|] == p;
    var q := LocateDir(w, p).value;
    RecordLocation(w, p, q);
    var k := q + [DIR_INFO, INFO_JSON];
    assert k[|k| - 2] == DIR_INFO && k[|k| - 1] == INFO_JSON;
    if WF(w) && WellFormed(p) {
      assert WellFormed(ip) by {
        forall i | 0 <= i < |ip| ensures IsComp(ip[i]) {
          if i < |p| { assert ip[i] == p[i]; }
        }
      }
      WriteWF(w, ip, body);
    }
  }

  /** An object's parent record edited by `add_obj_to_info` or `del_obj_from_info`. */
  lemma ParentRecordAdds(w: World, objPath: Path, w': World)
    requires objPath != []
    requires w' == w || exists body :: Write(w, ParentInfoPath(objPath), body) == Ok(w')
    ensures AddsRecords(w, w')
    ensures WF(w) && WellFormed(objPath) ==> WF(w')
  {
    if w' != w {
      var body :| Write(w, ParentInfoPath(objPath), body) == Ok(w');
      var d := objPath[..|objPath| - 1];
      RecordWriteAdds(w, d, body);
      if WellFormed(objPath) {
        assert WellFormed(d) by {
          forall i | 0 <= i < |d| ensures IsComp(d[i]) { assert d[i] == objPath[i]; }
        }
      }
    }
  }

  /** `del_obj_from_info` adds at most records and keeps a tree well formed. */
  lemma DelObjAdds(w: World, objPath: Path, name: string)
    requires objPath != [] && DelObj(w, objPath, name).Ok?
    ensures AddsRecords(w, DelObj(w, objPath, name).value)
    ensures WF(w) && WellFormed(objPath) ==> WF(DelObj(w, objPath, name).value)
  {
    var info := ReadValidateInfo(w, ParentInfoPath(objPath)).value;
    if name in info.objects {
      assert Write(w, ParentInfoPath(objPath), Doc(ToJson(Deleted(info, name)))) == Ok(DelObj(w, objPath, name).value);
    }
    ParentRecordAdds(w, objPath, DelObj(w, objPath, name).value);
  }

  /** `add_obj_to_info` adds at most records and keeps a tree well formed. */
  lemma AddObjAdds(w: World, objPath: Path, name: string, props: Option<Bag>)
    requires objPath != [] && AddObj(w, objPath, name, props).Ok?
    ensures AddsRecords(w, AddObj(w, objPath, name, props).value)
    ensures WF(w) && WellFormed(objPath) ==> WF(AddObj(w, objPath, name, props).value)
  {
    var info := ReadValidateInfo(w, ParentInfoPath(objPath)).value;
    if name !in info.objects {
      assert Write(w, ParentInfoPath(objPath), Doc(ToJson(Added(info, name, props)))) == Ok(AddObj(w, objPath, name, props).value);
    }
    ParentRecordAdds(w, objPath, AddObj(w, objPath, name, props).value);
  }

  lemma AddsRecordsTrans(w: World, w1: World, w2: World)
    requires AddsRecords(w, w1) && AddsRecords(w1, w2)
    ensures AddsRecords(w, w2)
  {
    PreservesTrans(w, w1, w2);
  }

  /**
   * What carrying metadata leaves when it does something: the world after the (optional)
   * deletion, or that world after the addition.
   */
  lemma MoveObjInfoSteps(w: World, src: Path, dest: Path, cut: bool)
    requires src != [] && dest != [] && FileName(src).Some? && FileName(dest).Some?
    requires GetObjInfo(w, ParentInfoPath(src), FileName(src).value).Ok?
    ensures var w1 := if cut then DelObj(w, src, FileName(src).value) else Ok(w);
      var bag := GetObjInfo(w, ParentInfoPath(src), FileName(src).value).value;
      var r := MoveObjInfo(w, src, dest, cut);
      (w1.Err? && r == w)
      || (w1.Ok? && AddObj(w1.value, dest, FileName(dest).value, Some(bag)).Err? && r == w1.value)
      || (w1.Ok? && AddObj(w1.value, dest, FileName(dest).value, Some(bag)) == Ok(r))
  {
    var sn, dn := FileName(src).value, FileName(dest).value;
    assert (FileName(src), FileName(dest)) == (Some(sn), Some(dn));
  }

  /** Carrying metadata, for a copy or a cut, adds at most records and keeps a tree well formed. */
  lemma MoveObjInfoAdds(w: World, src: Path, dest: Path, cut: bool)
    ensures AddsRecords(w, MoveObjInfo(w, src, dest, cut))
    ensures WF(w) && WellFormed(src) && WellFormed(dest) ==> WF(MoveObjInfo(w, src, dest, cut))
  {
    var r := MoveObjInfo(w, src, dest, cut);
    if src != [] && dest != [] && FileName(src).Some? && FileName(dest).Some?
       && GetObjInfo(w, ParentInfoPath(src), FileName(src).value).Ok? {
      var sn, dn := FileName(src).value, FileName(dest).value;
      var bag := GetObjInfo(w, ParentInfoPath(src), sn).value;
      MoveObjInfoSteps(w, src, dest, cut);
      var w1 := if cut then DelObj(w, src, sn) else Ok(w);
      if w1.Ok? {
        if cut { DelObjAdds(w, src, sn); }
        if AddObj(w1.value, dest, dn, Some(bag)).Ok? {
          AddObjAdds(w1.value, dest, dn, Some(bag));
          AddsRecordsTrans(w, w1.value, r);
        }
      }
    }
  }

  /** Writing a directory's record replaces at most one record file. */
  lemma RecordWritePreserves(w: World, p: Path, body: Body)
    requires Write(w, InfoPath(p), body).Ok?
    ensures Preserves(w, Write(w, InfoPath(p), body).value)
  {
    var ip := InfoPath(p);
    assert ip[..|ip| - 1] == p + [DIR_INFO];
    assert (p + [DIR_INFO])[..|p|] == p;
    RecordLocation(w, p, LocateDir(w, p).value);
  }

  /** `add_obj_to_info` changes at most the record of the object's parent. */
  lemma AddObjPreserves(w: World, objPath: Path, name: string, props: Option<Bag>)
    requires objPath != [] && AddObj(w, objPath, name, props).Ok?
    ensures Preserves(w, AddObj(w, objPath, name, props).value)
  {
    var ip := ParentInfoPath(objPath);
    var info := ReadValidateInfo(w, ip).value;
    if name !in info.objects {
      var i := info.(objects := info.objects[name := InitialProps(props)]);
      assert AddObj(w, objPath, name, props) == WriteInfo(w, ip, i);
      RecordWritePreserves(w, objPath[..|objPath| - 1], Doc(ToJson(i)));
    }
  }

  /** Carrying metadata for a copy changes at most one record. */
  lemma MoveObjInfoPreserves(w: World, src: Path, dest: Path)
    ensures Preserves(w, MoveObjInfo(w, src, dest, false))
  {
    if src != [] && dest != [] && FileName(src).Some? && FileName(dest).Some? {
      var bag := GetObjInfo(w, ParentInfoPath(src), FileName(src).value);
      if bag.Ok? && AddObj(w, dest, FileName(dest).value, Some(bag.value)).Ok? {
        AddObjPreserves(w, dest, FileName(dest).value, Some(bag.value));
      }
    }
  }

  /** Without `force` a file copy only adds the new file and edits a record. */
  lemma CopyOneFilePreserves(w: World, src: Path, dest: Path, root: Path, cut: bool)
    ensures Preserves(w, CopyOneFile(w, src, dest, root, false, cut).world)
  {
    if !Exists(w, dest) && CopyFile(w, src, dest).Ok? {
      var w2 := CopyFile(w, src, dest).value;
      MoveObjInfoPreserves(w2, src, dest);
      PreservesTrans(w, w2, MoveObjInfo(w2, src, dest, false));
    }
  }

  /**
   * Without `force` a file copy gives the destination the source's contents (unless the
   * destination is itself a record, which the metadata step may rewrite).
   */
  lemma CopyOneFileContents(w: World, src: Path, dest: Path, root: Path, cut: bool)
    requires CopyOneFile(w, src, dest, root, false, cut).res.Ok?
    requires Locate(w, dest).Ok? && !IsRecord(Locate(w, dest).value)
    ensures Read(CopyOneFile(w, src, dest, root, false, cut).world, dest) == Read(w, src)
  {
    assert !Exists(w, dest);
    FileCopied(w, src, dest);
    MoveObjInfoKeepsFile(CopyFile(w, src, dest).value, src, dest);
  }

  /** A file copied to a free destination reads there as the source does. */
  lemma FileCopied(w: World, src: Path, dest: Path)
    requires !Exists(w, dest) && CopyFile(w, src, dest).Ok?
    ensures var w2 := CopyFile(w, src, dest).value;
      Locate(w2, dest) == Locate(w, dest) && Read(w2, dest) == Read(w, src)
  {
    var q := Locate(w, dest).value;
    var w2 := CopyFile(w, src, dest).value;
    assert q !in w;
    assert w2 == w[q := File(Read(w, src).value)];
    LocateGrows(w, w2, dest);
  }

  /** Moving object metadata leaves a destination that is not a record reading the same. */
  lemma MoveObjInfoKeepsFile(w2: World, src: Path, dest: Path)
    requires Locate(w2, dest).Ok? && !IsRecord(Locate(w2, dest).value)
    ensures Read(MoveObjInfo(w2, src, dest, false), dest) == Read(w2, dest)
  {
    var w3 := MoveObjInfo(w2, src, dest, false);
    MoveObjInfoPreserves(w2, src, dest);
    PreservesKeepsDirs(w2, w3);
    LocateKeeps(w2, w3, dest);
  }

  lemma PreservesKeepsDirs(w: World, w': World)
    requires Preserves(w, w')
    ensures KeepsDirs(w, w')
  {
  }

  /**
   * Without `force` a directory copy never replaces or removes anything that existed: the
   * world afterwards keeps every stored path, and only record files may read differently.
   */
  lemma {:induction false} CopyDirectoryPreserves(w: World, src: Path, dest: Path, root: Path, cut: bool, fuel: nat)
    ensures Preserves(w, CopyDirectory(w, src, dest, root, false, cut, fuel).world)
    decreases fuel, 0
  {
    forall w3: World, names: seq<string>, f: nat | f < fuel
      ensures Preserves(w3, CopyEntries(w3, src, dest, names, root, false, cut, f).world)
    {
      CopyEntriesPreserves(w3, src, dest, names, root, cut, f);
    }
    CopyDirectoryPreservesIfLoopDoes(w, src, dest, root, cut, fuel);
  }

  /** The world a directory copy has once the destination exists with its metadata. */
  function LoopStart(w: World, src: Path, dest: Path): World
    requires CreateDirAll(w, dest).Ok?
  {
    MoveObjInfo(CreateDirAll(w, dest).value, src, dest, false)
  }

  /** A directory copy without `force` gets as far as its loop over the entries. */
  predicate ReachesLoop(w: World, src: Path, dest: Path, fuel: nat) {
    && !Exists(w, dest) && CreateDirAll(w, dest).Ok? && fuel > 0
    && ReadDir(LoopStart(w, src, dest), src).Ok?
  }

  /** What a directory copy keeps, given what its loop keeps. */
  lemma CopyDirectoryPreservesIfLoopDoes(w: World, src: Path, dest: Path, root: Path, cut: bool, fuel: nat)
    requires forall w3: World, names: seq<string>, f: nat | f < fuel ::
      Preserves(w3, CopyEntries(w3, src, dest, names, root, false, cut, f).world)
    ensures Preserves(w, CopyDirectory(w, src, dest, root, false, cut, fuel).world)
  {
    var r := CopyDirectory(w, src, dest, root, false, cut, fuel);
    CopyDirectoryShape(w, src, dest, root, cut, fuel);
    if r.world != w {
      var w3 := LoopStart(w, src, dest);
      NewDirectoryPreserves(w, src, dest);
      if r.world != w3 {
        PreservesTrans(w, w3, r.world);
      }
    }
  }

  /**
   * A directory copy without `force` leaves the world it started from, the world after
   * the destination is created and the metadata carried, or the world the loop leaves.
   */
  lemma CopyDirectoryShape(w: World, src: Path, dest: Path, root: Path, cut: bool, fuel: nat)
    ensures var r := CopyDirectory(w, src, dest, root, false, cut, fuel);
      r.world == w
      || (&& !Exists(w, dest) && CreateDirAll(w, dest).Ok?
          && var w3 := LoopStart(w, src, dest);
             || r.world == w3
             || (ReachesLoop(w, src, dest, fuel)
                 && r.world == CopyEntries(w3, src, dest, ReadDir(w3, src).value, root, false, cut, fuel - 1).world))
  {
    if !Exists(w, dest) && CreateDirAll(w, dest).Ok? {
      if ReachesLoop(w, src, dest, fuel) {
        CopyDirectoryLoops(w, src, dest, root, cut, fuel);
      } else {
        CopyDirectoryStops(w, src, dest, root, cut, fuel);
      }
    }
  }

  lemma CopyDirectoryLoops(w: World, src: Path, dest: Path, root: Path, cut: bool, fuel: nat)
    requires ReachesLoop(w, src, dest, fuel)
    ensures var w3 := LoopStart(w, src, dest);
      CopyDirectory(w, src, dest, root, false, cut, fuel).world
        == CopyEntries(w3, src, dest, ReadDir(w3, src).value, root, false, cut, fuel - 1).world
  {
  }

  lemma CopyDirectoryStops(w: World, src: Path, dest: Path, root: Path, cut: bool, fuel: nat)
    requires !Exists(w, dest) && CreateDirAll(w, dest).Ok? && !ReachesLoop(w, src, dest, fuel)
    ensures CopyDirectory(w, src, dest, root, false, cut, fuel).world == LoopStart(w, src, dest)
  {
  }

  /** Creating the destination and carrying its metadata keeps what existed. */
  lemma NewDirectoryPreserves(w: World, src: Path, dest: Path)
    requires CreateDirAll(w, dest).Ok?
    ensures Preserves(w, LoopStart(w, src, dest))
  {
    var w2 := CreateDirAll(w, dest).value;
    CreateDirAllGrows(w, dest);
    MoveObjInfoPreserves(w2, src, dest);
    PreservesTrans(w, w2, MoveObjInfo(w2, src, dest, false));
  }

  lemma {:induction false} CopyEntriesPreserves(w: World, src: Path, dest: Path, names: seq<string>, root: Path, cut: bool, fuel: nat)
    ensures Preserves(w, CopyEntries(w, src, dest, names, root, false, cut, fuel).world)
    decreases fuel, |names|
  {
    if names != [] {
      if names[0] == DIR_INFO {
        CopyEntriesPreserves(w, src, dest, names[1..], root, cut, fuel);
      } else {
        var e := src + [names[0]];
        var n := dest + [names[0]];
        var r := if IsDir(w, e) then CopyDirectory(w, e, n, root, false, cut, fuel) else CopyOneFile(w, e, n, root, false, cut);
        if IsDir(w, e) {
          CopyDirectoryPreserves(w, e, n, root, cut, fuel);
        } else {
          CopyOneFilePreserves(w, e, n, root, cut);
        }
        if r.res.Ok? {
          CopyEntriesPreserves(r.world, src, dest, names[1..], root, cut, fuel);
          PreservesTrans(w, r.world, CopyEntries(r.world, src, dest, names[1..], root, false, cut, fuel).world);
        }
      }
    }
  }

  // ---------------------------------------------------------------------------
  // The command
  // ---------------------------------------------------------------------------

  predicate Cut(args: seq<string>) { "-x" in args || "--cut" in args }
  predicate Recursive(args: seq<string>) { "-r" in args || "--recursive" in args }
  predicate Force(args: seq<string>) { "-f" in args || "--force" in args }

  /** How the result of the operation is printed. */
  function Shown(res: Result<string, IoErr>): string {
    match res
    case Ok(msg) => msg
    case Err(e) => "copy: " + e.Message()
  }

  /**
   * The operation once every guard has passed: a move, the refusal of a directory without
   * `-r`, a directory copy or a file copy.
   */
  function Dispatch(env: Env, w: World, s: Path, d: Path, root: Path, cut: bool, recursive: bool, force: bool, fuel: nat)
    : (r: Attempt)
    ensures !cut && IsDir(w, s) && !recursive ==> r == Attempt(Err(Other(NEEDS_R)), w)
    ensures !cut && !IsDir(w, s) && Exists(w, d) && !force ==> r == Attempt(Err(Other(FILE_EXISTS)), w)
    ensures !cut && IsDir(w, s) && recursive && Exists(w, d) && !force ==> r == Attempt(Err(Other(DIR_EXISTS)), w)
    ensures cut && IsDir(w, s) && !recursive && FileName(s) != Some(DIR_INFO) ==> r == Attempt(Err(Other(USE_R)), w)
  {
    if cut then MoveItem(AsWritten, env, w, s, d, root, recursive, force, fuel)
    else if IsDir(w, s) && !recursive then Attempt(Err(Other(NEEDS_R)), w)
    else if IsDir(w, s) then CopyDirectory(w, s, d, root, force, false, fuel)
    else CopyOneFile(w, s, d, root, force, false)
  }

  /**
   * `copy` once its arguments have parsed. The operation follows directory trees as deep
   * as the world has entries.
   */
  function CopyWith(env: Env, w: World, args: seq<string>, cur: Path, root: Path, prompter: Prompter): (r: Run)
    ensures |PathArgs(args)| != 2 ==> r == Run(Reply(TWO_PATHS, []), w)
    ensures |PathArgs(args)| == 2 && (env.checkDirInfo(Comps(PathArgs(args)[0])) || env.checkDirInfo(Comps(PathArgs(args)[1]))) ==>
      r == Run(Reply(RESTRICTED, []), w)
    ensures |PathArgs(args)| == 2 && !env.checkDirInfo(Comps(PathArgs(args)[0])) && !env.checkDirInfo(Comps(PathArgs(args)[1])) ==>
      && r.out.Reply? && r.out.asked == (if Force(args) then [FORCE_PROMPT] else [])
      && (Force(args) && !prompter.confirms ==> r.world == w && r.out.text == FORCE_CANCELLED)
      && ((!Force(args) || prompter.confirms)
          && ValidatePaths(env, w, PathArgs(args)[0], PathArgs(args)[1], cur, root).Err? ==>
            r.world == w && r.out.text == ValidatePaths(env, w, PathArgs(args)[0], PathArgs(args)[1], cur, root).error)
    ensures r.world != w ==>
      && |PathArgs(args)| == 2 && (!Force(args) || prompter.confirms)
      && ValidatePaths(env, w, PathArgs(args)[0], PathArgs(args)[1], cur, root).Ok?
      && var (s, d) := ValidatePaths(env, w, PathArgs(args)[0], PathArgs(args)[1], cur, root).value;
         && Locks(env, w, s, d).Ok?
         && r.world == Dispatch(env, w, s, d, root, Cut(args), Recursive(args), Force(args), |w|).world
  {
    var paths := PathArgs(args);
    if |paths| != 2 then Run(Reply(TWO_PATHS, []), w)
    else if env.checkDirInfo(Comps(paths[0])) || env.checkDirInfo(Comps(paths[1])) then Run(Reply(RESTRICTED, []), w)
    else
      var asked := if Force(args) then [FORCE_PROMPT] else [];
      if Force(args) && !prompter.confirms then Run(Reply(FORCE_CANCELLED, asked), w)
      else match ValidatePaths(env, w, paths[0], paths[1], cur, root)
        case Err(e) => Run(Reply(e, asked), w)
        case Ok((s, d)) =>
          match Locks(env, w, s, d)
          case Err(e) => Run(Reply(e, asked), w)
          case Ok(_) =>
            var a := Dispatch(env, w, s, d, root, Cut(args), Recursive(args), Force(args), |w|);
            Run(Reply(Shown(a.res), asked), a.world)
  }

  /** A locked source or destination stops the command before anything changes. */
  lemma CopyRefusesLocked(env: Env, w: World, args: seq<string>, cur: Path, root: Path, prompter: Prompter)
    requires |PathArgs(args)| == 2 && (!Force(args) || prompter.confirms)
    requires !env.checkDirInfo(Comps(PathArgs(args)[0])) && !env.checkDirInfo(Comps(PathArgs(args)[1]))
    requires ValidatePaths(env, w, PathArgs(args)[0], PathArgs(args)[1], cur, root).Ok?
    requires var (s, d) := ValidatePaths(env, w, PathArgs(args)[0], PathArgs(args)[1], cur, root).value;
      OperationLockedPerm(env.worldDir, w, s, "copy", LOCK_MESSAGE).Err?
    ensures var (s, d) := ValidatePaths(env, w, PathArgs(args)[0], PathArgs(args)[1], cur, root).value;
      CopyWith(env, w, args, cur, root, prompter)
        == Run(Reply(OperationLockedPerm(env.worldDir, w, s, "copy", LOCK_MESSAGE).error,
                     if Force(args) then [FORCE_PROMPT] else []), w)
  {
  }

  /**
   * A copy without `-f` and without `-x` never overwrites or removes anything: every path
   * that existed still exists, and only record files can read differently.
   */
  lemma CopyWithoutForceKeeps(env: Env, w: World, args: seq<string>, cur: Path, root: Path, prompter: Prompter)
    requires !Force(args) && !Cut(args)
    ensures Preserves(w, CopyWith(env, w, args, cur, root, prompter).world)
  {
    var r := CopyWith(env, w, args, cur, root, prompter);
    if r.world != w {
      var paths := PathArgs(args);
      var (s, d) := ValidatePaths(env, w, paths[0], paths[1], cur, root).value;
      if IsDir(w, s) {
        CopyDirectoryPreserves(w, s, d, root, false, |w|);
      } else {
        CopyOneFilePreserves(w, s, d, root, false);
      }
    }
  }

  /**
   * `copy(args, current_dir, root_dir, prompter)`: the arguments are parsed against the
   * valid flags first; `-h`/`--help` shows the help text and an unknown flag is refused.
   */
  method CopyCommand(env: Env, w: World, args: seq<string>, cur: Path, root: Path, prompter: Prompter) returns (r: Run)
    ensures (forall i :: 0 <= i < |args| ==> !Rejected(NewParser(FLAGS).flags, args[i])) ==>
      r == CopyWith(env, w, args, cur, root, prompter)
    ensures (exists i :: 0 <= i < |args| && Rejected(NewParser(FLAGS).flags, args[i])) ==>
      r == Run(Reply(HELP_TXT, []), w) || r == Run(Reply(UNKNOWN_FLAG, []), w)
    ensures forall k :: FirstRejectedAt(NewParser(FLAGS).flags, args, k) ==>
      r == Run(Reply(if IsHelp(args[k]) then HELP_TXT else UNKNOWN_FLAG, []), w)
  {
    var p := NewParser(FLAGS);
    var q, res := Parse(p, args);
    match res
    case Err(e) =>
      var text := if e == "help" then HELP_TXT else if e == "unknown" then UNKNOWN_FLAG else PARSE_ERROR;
      r := Run(Reply(text, []), w);
    case Ok(_) =>
      r := CopyWith(env, w, args, cur, root, prompter);
  }
}
