/**
 * Restore points. `backup_sekai` packs everything below the world root into an archive kept
 * in the root's `.dir_info` (`restore_me` for the first restore point, `save_me` for saved
 * progress); `restore_sekai` clears the root, keeping `.dir_info`, and unpacks the archive
 * over it. The tar/zlib archive is an exact copy of the entries: a map from root-relative
 * paths to entries.
 */
module Snapshot {
  import opened Wrappers
  import opened Text
  import opened Paths
  import opened Fs
  import opened InfoReader
  import Console

  const RESTORE := "restore"
  const SAVE := "save"
  const RESTORE_FILE := "restore_me"
  const SAVE_FILE := "save_me"
  const INVALID_USAGE := "Invalid usage: must be 'restore' or 'save'"
  const SKIPPING := "Restore file already exists, skipping creation."
  const UNPACK_FAILED := "failed to unpack archive"

  /** An operation's result together with the world it leaves, also when it fails midway. */
  datatype Done<T> = Done(res: Result<T, IoErr>, world: World)

  predicate ValidUsage(usage: string) {
    usage == RESTORE || usage == SAVE
  }

  /** The archive a usage works with. */
  function ArchiveName(usage: string): string {
    if usage == RESTORE then RESTORE_FILE else SAVE_FILE
  }

  /** `<root>/.dir_info/<archive>` */
  function ArchivePath(root: Path, usage: string): Path {
    root + [DIR_INFO, ArchiveName(usage)]
  }

  /** `format!("{:?}", path)` for a path without characters that need escaping. */
  function Quoted(p: Path): string {
    "\"" + Display(p) + "\""
  }

  // ---------------------------------------------------------------------------
  // backup_sekai
  // ---------------------------------------------------------------------------

  /**
   * What the walk packs: every entry strictly below the root, keyed by its path relative
   * to the root, except the archive being written.
   */
  function Packed(w: World, root: Path, usage: string): (a: map<Path, Node>)
    ensures forall r :: r in a <==> r != [] && root + r in w && r != [DIR_INFO, ArchiveName(usage)]
    ensures forall r :: r in a ==> a[r] == w[root + r]
  {
    Subtree(w, root) - {[DIR_INFO, ArchiveName(usage)]}
  }

  /**
   * `backup_sekai(usage, root)`: creates `.dir_info` (also for an invalid usage, which
   * fails only afterwards), keeps an existing `restore_me`, and otherwise writes the archive.
   */
  function Backup(usage: string, w: World, root: Path): (r: Done<string>)
    ensures CreateDirAll(w, root + [DIR_INFO]).Err? ==> r == Done(Err(CreateDirAll(w, root + [DIR_INFO]).error), w)
    ensures CreateDirAll(w, root + [DIR_INFO]).Ok? && !ValidUsage(usage) ==>
      r == Done(Err(InvalidInput(INVALID_USAGE)), CreateDirAll(w, root + [DIR_INFO]).value)
    ensures r.res.Ok? && r.res.value != SKIPPING ==>
      ValidUsage(usage) && CreateDirAll(w, root + [DIR_INFO]).Ok?
      && Write(CreateDirAll(w, root + [DIR_INFO]).value, ArchivePath(root, usage),
               Archive(Packed(CreateDirAll(w, root + [DIR_INFO]).value, root, usage))) == Ok(r.world)
  {
    match CreateDirAll(w, root + [DIR_INFO])
    case Err(e) => Done(Err(e), w)
    case Ok(w1) =>
      if !ValidUsage(usage) then Done(Err(InvalidInput(INVALID_USAGE)), w1)
      else if usage == RESTORE && Exists(w1, ArchivePath(root, RESTORE)) then Done(Ok(SKIPPING), w1)
      else
        var file := ArchivePath(root, usage);
        match Write(w1, file, Archive(Packed(w1, root, usage)))
        case Err(e) => Done(Err(e), w1)
        case Ok(w2) => Done(Ok("Backup created at " + Quoted(file)), w2)
  }

  // ---------------------------------------------------------------------------
  // restore_sekai
  // ---------------------------------------------------------------------------

  /**
   * One pass of the clearing loop of `restore_sekai`, for the root's entry `name`:
   * `.dir_info` is kept, except that a full restore deletes `save_me` inside it; any other
   * entry is removed, a directory with everything below it.
   */
  function ClearOne(w: World, root: Path, name: string, usage: string): (r: Result<World, IoErr>)
    ensures r.Ok? ==> Console.Extends(r.value, w)
    ensures r.Ok? && name != DIR_INFO ==> Exists(w, root + [name])
  {
    var p := root + [name];
    if name == DIR_INFO then
      (if usage == RESTORE && Exists(w, p + [SAVE_FILE]) then RemoveFile(w, p + [SAVE_FILE]) else Ok(w))
    else if IsDir(w, p) then RemoveDirAll(w, p)
    else RemoveFile(w, p)
  }

  /** The clearing loop over the root's entries `names`, stopping at the first failure. */
  function Clear(w: World, root: Path, names: seq<string>, usage: string): (r: Done<()>)
    ensures Console.Extends(r.world, w)
    decreases |names|
  {
    if names == [] then Done(Ok(()), w)
    else
      match ClearOne(w, root, names[0], usage)
      case Err(e) => Done(Err(e), w)
      case Ok(w1) => Clear(w1, root, names[1..], usage)
  }

  /** `archive.unpack(root)`: every archived entry written at its place below the root. */
  function Unpack(w: World, root: Path, a: map<Path, Node>): (r: World)
    ensures forall k :: k in r <==> k in w || (StrictlyBelow(root, k) && k[|root|..] in a)
    ensures forall k :: k in r ==>
      r[k] == if StrictlyBelow(root, k) && k[|root|..] in a then a[k[|root|..]] else w[k]
  {
    var placed := set rel | rel in a && rel != [] :: root + rel;
    forall k | StrictlyBelow(root, k) && k[|root|..] in a ensures k in placed {
      assert root + k[|root|..] == k;
    }
    forall k | k in placed ensures k in w || (StrictlyBelow(root, k) && k[|root|..] in a) {
      var rel :| rel in a && rel != [] && k == root + rel;
      assert k[|root|..] == rel;
    }
    map k | k in w.Keys + placed ::
      if StrictlyBelow(root, k) && k[|root|..] in a then a[k[|root|..]] else w[k]
  }

  /**
   * `restore_sekai(usage, root)`: reads the archive (failing before any change when it
   * cannot be read), clears the root, and unpacks the archive over it. The archive's
   * contents are taken before the clearing, which is what the source's temporary copy
   * outside the root achieves; the copy itself is not modelled.
   */
  function Restore(usage: string, w: World, root: Path): (r: Done<()>)
    ensures !ValidUsage(usage) ==> r == Done(Err(InvalidInput(INVALID_USAGE)), w)
    ensures !IsFile(w, ArchivePath(root, usage)) ==> r.res.Err? && r.world == w
  {
    if !ValidUsage(usage) then Done(Err(InvalidInput(INVALID_USAGE)), w)
    else match Read(w, ArchivePath(root, usage))
      case Err(e) => Done(Err(e), w)
      case Ok(body) =>
        match ReadDir(w, root)
        case Err(e) => Done(Err(e), w)
        case Ok(names) =>
          var cleared := Clear(w, root, names, usage);
          if cleared.res.Err? then cleared
          else if !body.Archive? then Done(Err(Other(UNPACK_FAILED)), cleared.world)
          else Done(Ok(()), Unpack(cleared.world, root, body.entries))
  }

  /** `can_restore`: a restore point exists. */
  predicate CanRestore(w: World, root: Path) {
    Exists(w, ArchivePath(root, RESTORE))
  }

  /** `can_save`: saved progress exists. */
  predicate CanSave(w: World, root: Path) {
    Exists(w, ArchivePath(root, SAVE))
  }

  // ---------------------------------------------------------------------------
  // What clearing removes
  // ---------------------------------------------------------------------------

  /** A stored root that is a directory of a well-formed world. */
  predicate RootDir(w: World, root: Path) {
    WF(w) && root in w && w[root].Dir?
  }

  /** `k` is removed by clearing the root entries `names`. */
  predicate Doomed(root: Path, names: seq<string>, usage: string, k: Path) {
    StrictlyBelow(root, k) && k[|root|] in names
    && (k[|root|] == DIR_INFO ==> usage == RESTORE && k == root + [DIR_INFO, SAVE_FILE])
  }

  /** `w` without the paths that `Doomed` marks. */
  function Without(w: World, root: Path, names: seq<string>, usage: string): World {
    map k | k in w && !Doomed(root, names, usage, k) :: w[k]
  }

  /** Names of entries of the root, each stored once. */
  predicate RootEntries(w: World, root: Path, names: seq<string>) {
    (forall i :: 0 <= i < |names| ==> root + [names[i]] in w)
    && (forall i, j :: 0 <= i < j < |names| ==> names[i] != names[j])
  }

  /** A `save_me` that a full restore deletes is a file. */
  predicate SaveIsFile(w: World, root: Path) {
    root + [DIR_INFO, SAVE_FILE] in w ==> w[root + [DIR_INFO, SAVE_FILE]].File?
  }


  // ---------------------------------------------------------------------------
  // Resolution of the paths involved
  // ---------------------------------------------------------------------------

  /** `.dir_info` and the archives below a plain root are plain paths. */
  lemma ArchivePathPlain(root: Path, usage: string)
    requires Plain(root)
    ensures Plain(root + [DIR_INFO]) && Plain(ArchivePath(root, usage))
  {
    var di := root + [DIR_INFO];
    var f := ArchivePath(root, usage);
    forall i | 0 <= i < |di| ensures IsComp(di[i]) && di[i] != ".." {
      if i < |root| { assert di[i] == root[i]; }
    }
    forall i | 0 <= i < |f| ensures IsComp(f[i]) && f[i] != ".." {
      if i < |root| { assert f[i] == root[i]; }
    }
  }

  /** Every prefix of a stored path is stored. */
  lemma {:induction false} PrefixStored(w: World, k: Path, n: nat)
    requires WF(w) && k in w && n <= |k|
    ensures k[..n] in w
    decreases |k| - n
  {
    if n < |k| {
      PrefixStored(w, k, n + 1);
      var j := k[..n + 1];
      assert j[..|j| - 1] == k[..n];
      ParentStored(w, j);
    } else {
      assert k[..n] == k;
    }
  }

  /**
   * An archive path resolves to itself when `.dir_info` is a stored directory, and names
   * nothing otherwise.
   */
  lemma ArchiveLocate(w: World, root: Path, usage: string)
    requires RootDir(w, root)
    ensures var di := root + [DIR_INFO];
      && (di in w && w[di].Dir? ==> Locate(w, ArchivePath(root, usage)) == Ok(ArchivePath(root, usage)))
      && (!(di in w && w[di].Dir?) ==> !Exists(w, ArchivePath(root, usage)))
  {
    ArchivePathPlain(root, usage);
    var di := root + [DIR_INFO];
    var f := ArchivePath(root, usage);
    assert f[..|f| - 1] == di && di[..|di| - 1] == root;
    LocateDirStored(w, root);
    if di in w && w[di].Dir? {
      LocateStored(w, f);
    } else {
      assert LocateDir(w, di).Err?;
    }
  }

  // ---------------------------------------------------------------------------
  // What clearing removes
  // ---------------------------------------------------------------------------

  /** Every proper prefix of a stored path is a stored directory. */
  lemma AncestorIsDir(w: World, k: Path, n: nat)
    requires WF(w) && k in w && n < |k|
    ensures k[..n] in w && w[k[..n]].Dir?
  {
    PrefixStored(w, k, n + 1);
    var j := k[..n + 1];
    assert j[..|j| - 1] == k[..n];
    ParentStored(w, j);
  }

  /** Clearing an entry other than `.dir_info` removes it with everything below it. */
  lemma ClearOneEntry(w: World, root: Path, n: string, usage: string)
    requires RootDir(w, root) && root + [n] in w && n != DIR_INFO
    ensures ClearOne(w, root, n, usage) == Ok(w - Below(w, root + [n]))
  {
    var p := root + [n];
    assert p[..|p| - 1] == root;
    LocateStored(w, p);
    if !w[p].Dir? {
      assert Below(w, p) == {p} by {
        forall k | k in w && IsPrefix(p, k) ensures k == p {
          if |k| > |p| {
            assert k[..|p|] == p;
            AncestorIsDir(w, k, |p|);
          }
        }
      }
    }
  }

  /** The paths below a root entry other than `.dir_info` are exactly its doomed paths. */
  lemma BelowIsDoomed(w: World, root: Path, n: string, usage: string)
    requires n != DIR_INFO
    ensures w - Below(w, root + [n]) == Without(w, root, [n], usage)
  {
    var p := root + [n];
    forall k | k in w ensures Doomed(root, [n], usage, k) <==> IsPrefix(p, k) {
      if IsPrefix(p, k) {
        assert k[..|root|] == root && k[|root|] == n;
      }
      if Doomed(root, [n], usage, k) {
        assert k[..|p|] == p;
      }
    }
  }

  /** Of `.dir_info`, only `save_me` in a full restore is doomed. */
  lemma DoomedDirInfo(root: Path, usage: string, k: Path)
    ensures Doomed(root, [DIR_INFO], usage, k) <==> usage == RESTORE && k == ArchivePath(root, SAVE)
  {
    if k == ArchivePath(root, SAVE) {
      assert k[..|root|] == root && k[|root|] == DIR_INFO;
    }
  }

  /** Without `.dir_info`'s doomed paths: `save_me` is gone in a full restore. */
  lemma WithoutDirInfo(w: World, root: Path, usage: string)
    ensures Without(w, root, [DIR_INFO], usage)
         == if usage == RESTORE then w - {ArchivePath(root, SAVE)} else w
  {
    forall k | k in w
      ensures Doomed(root, [DIR_INFO], usage, k) <==> usage == RESTORE && k == ArchivePath(root, SAVE)
    {
      DoomedDirInfo(root, usage, k);
    }
  }

  /** Clearing `.dir_info` removes `save_me` in a full restore, and nothing otherwise. */
  lemma ClearOneDirInfo(w: World, root: Path, usage: string)
    requires RootDir(w, root) && root + [DIR_INFO] in w && SaveIsFile(w, root)
    ensures ClearOne(w, root, DIR_INFO, usage) == Ok(Without(w, root, [DIR_INFO], usage))
  {
    var p := root + [DIR_INFO];
    var s := ArchivePath(root, SAVE);
    assert p + [SAVE_FILE] == s;
    WithoutDirInfo(w, root, usage);
    ArchiveLocate(w, root, SAVE);
    if s in w {
      AncestorIsDir(w, s, |s| - 1);
      assert s[..|s| - 1] == p;
      assert Locate(w, s) == Ok(s);
      assert IsFile(w, s);
      if usage == RESTORE {
        assert RemoveFile(w, s) == Ok(w - {s});
      }
    } else {
      assert w - {s} == w;
      assert !Exists(w, s);
    }
  }

  /** The first pass of the clearing loop removes exactly the first name's doomed paths. */
  lemma ClearStep(w: World, root: Path, names: seq<string>, usage: string)
    requires RootDir(w, root) && names != [] && RootEntries(w, root, names) && SaveIsFile(w, root)
    ensures ClearOne(w, root, names[0], usage) == Ok(Without(w, root, [names[0]], usage))
  {
    if names[0] == DIR_INFO {
      ClearOneDirInfo(w, root, usage);
    } else {
      ClearOneEntry(w, root, names[0], usage);
      BelowIsDoomed(w, root, names[0], usage);
    }
  }

  /** The parent of a path that survives is doomed only if it is the `save_me` file. */
  lemma DoomedParent(root: Path, names: seq<string>, usage: string, k: Path)
    requires k != [] && Doomed(root, names, usage, k[..|k| - 1])
    ensures Doomed(root, names, usage, k) || k[..|k| - 1] == root + [DIR_INFO, SAVE_FILE]
  {
    var u := k[..|k| - 1];
    assert k[..|root|] == u[..|root|] && k[|root|] == u[|root|];
  }

  /** Removing doomed paths keeps a world well formed: their descendants are doomed too. */
  lemma WithoutWF(w: World, root: Path, names: seq<string>, usage: string)
    requires WF(w) && SaveIsFile(w, root)
    ensures WF(Without(w, root, names, usage))
  {
    var w1 := Without(w, root, names, usage);
    forall k | k in w1 && k != [] ensures k[..|k| - 1] in w1 && w1[k[..|k| - 1]].Dir? {
      ParentStored(w, k);
      if Doomed(root, names, usage, k[..|k| - 1]) {
        DoomedParent(root, names, usage, k);
      }
    }
  }

  /** After the first entry is cleared, the remaining names are still distinct stored entries. */
  lemma EntriesRest(w: World, root: Path, names: seq<string>, usage: string)
    requires names != [] && RootEntries(w, root, names)
    ensures RootEntries(Without(w, root, [names[0]], usage), root, names[1..])
  {
    var w1 := Without(w, root, [names[0]], usage);
    forall i | 0 <= i < |names[1..]| ensures root + [names[1..][i]] in w1 {
      var k := root + [names[1..][i]];
      assert names[1..][i] == names[i + 1] != names[0];
      assert k[|root|] == names[i + 1];
    }
  }

  /** Clearing the first name and then the rest is clearing all of them. */
  lemma WithoutSplit(w: World, root: Path, names: seq<string>, usage: string)
    requires names != []
    ensures Without(Without(w, root, [names[0]], usage), root, names[1..], usage) == Without(w, root, names, usage)
  {
    forall k ensures Doomed(root, names, usage, k) <==>
                     Doomed(root, [names[0]], usage, k) || Doomed(root, names[1..], usage, k) {
      if StrictlyBelow(root, k) && k[|root|] in names && k[|root|] != names[0] {
        assert k[|root|] in names[1..];
      }
    }
  }

  /** Clearing keeps the root and the `save_me` guarantee. */
  lemma WithoutKeepsRoot(w: World, root: Path, names: seq<string>, usage: string)
    requires RootDir(w, root) && SaveIsFile(w, root)
    ensures RootDir(Without(w, root, names, usage), root) && SaveIsFile(Without(w, root, names, usage), root)
  {
    WithoutWF(w, root, names, usage);
  }

  /**
   * The clearing loop, run over distinct entries of the root, removes exactly the doomed
   * paths and nothing else.
   */
  lemma {:induction false} ClearSpec(w: World, root: Path, names: seq<string>, usage: string)
    requires RootDir(w, root) && RootEntries(w, root, names) && SaveIsFile(w, root)
    ensures Clear(w, root, names, usage) == Done(Ok(()), Without(w, root, names, usage))
    decreases |names|
  {
    if names == [] {
      assert Without(w, root, names, usage) == w;
    } else {
      ClearStep(w, root, names, usage);
      var w1 := Without(w, root, [names[0]], usage);
      WithoutKeepsRoot(w, root, [names[0]], usage);
      EntriesRest(w, root, names, usage);
      ClearSpec(w1, root, names[1..], usage);
      WithoutSplit(w, root, names, usage);
    }
  }

  /** A stored root directory lists its children. */
  lemma ReadDirRoot(w: World, root: Path)
    requires RootDir(w, root)
    ensures ReadDir(w, root) == Ok(SortedList(Children(w, root)))
  {
    if root != [] {
      LocateStored(w, root);
    }
  }

  /** Each listed child of the root is stored, and each is listed once. */
  lemma ChildrenStored(w: World, root: Path)
    ensures RootEntries(w, root, SortedList(Children(w, root)))
  {
    var names := SortedList(Children(w, root));
    forall i | 0 <= i < |names| ensures root + [names[i]] in w {
      ChildrenMember(w, root, names[i]);
    }
  }

  /** Every path strictly below a stored root starts with one of its children. */
  lemma ChildrenCover(w: World, root: Path)
    requires WF(w)
    ensures forall k :: k in w && StrictlyBelow(root, k) ==> k[|root|] in SortedList(Children(w, root))
  {
    forall k | k in w && StrictlyBelow(root, k) ensures k[|root|] in Children(w, root) {
      PrefixStored(w, k, |root| + 1);
      assert k[..|root| + 1] == root + [k[|root|]];
      ChildrenMember(w, root, k[|root|]);
    }
  }

  /** The listing of a stored root directory names each of its entries exactly once. */
  lemma ListedEntries(w: World, root: Path)
    requires RootDir(w, root)
    ensures ReadDir(w, root).Ok?
    ensures RootEntries(w, root, ReadDir(w, root).value)
    ensures forall k :: k in w && StrictlyBelow(root, k) ==> k[|root|] in ReadDir(w, root).value
  {
    ReadDirRoot(w, root);
    ChildrenStored(w, root);
    ChildrenCover(w, root);
  }

  // ---------------------------------------------------------------------------
  // Restoring
  // ---------------------------------------------------------------------------

  /** An archive stored at its place can be read. */
  lemma ArchiveRead(w: World, root: Path, usage: string, a: map<Path, Node>)
    requires RootDir(w, root)
    requires ArchivePath(root, usage) in w && w[ArchivePath(root, usage)] == File(Archive(a))
    ensures Read(w, ArchivePath(root, usage)) == Ok(Archive(a))
  {
    var f := ArchivePath(root, usage);
    AncestorIsDir(w, f, |f| - 1);
    assert f[..|f| - 1] == root + [DIR_INFO];
    ArchiveLocate(w, root, usage);
  }

  /** Clearing the listed entries of a stored root removes exactly their doomed paths. */
  lemma ClearListed(w: World, root: Path, usage: string)
    requires RootDir(w, root) && SaveIsFile(w, root)
    ensures ReadDir(w, root).Ok?
    ensures Clear(w, root, ReadDir(w, root).value, usage)
         == Done(Ok(()), Without(w, root, ReadDir(w, root).value, usage))
  {
    ListedEntries(w, root);
    ClearSpec(w, root, ReadDir(w, root).value, usage);
  }

  /** `restore_sekai` when reading, listing and clearing all succeed. */
  lemma RestoreSteps(usage: string, w: World, root: Path, body: Body, names: seq<string>)
    requires ValidUsage(usage) && Read(w, ArchivePath(root, usage)) == Ok(body) && body.Archive?
    requires ReadDir(w, root) == Ok(names) && Clear(w, root, names, usage).res.Ok?
    ensures Restore(usage, w, root) == Done(Ok(()), Unpack(Clear(w, root, names, usage).world, root, body.entries))
  {
  }

  /** Restoring from an intact archive clears the listed entries and unpacks the archive. */
  lemma RestoreWorld(usage: string, w: World, root: Path, a: map<Path, Node>)
    requires ValidUsage(usage) && RootDir(w, root) && SaveIsFile(w, root)
    requires ArchivePath(root, usage) in w && w[ArchivePath(root, usage)] == File(Archive(a))
    ensures ReadDir(w, root).Ok?
    ensures Restore(usage, w, root) == Done(Ok(()), Unpack(Without(w, root, ReadDir(w, root).value, usage), root, a))
  {
    ArchiveRead(w, root, usage, a);
    ClearListed(w, root, usage);
    RestoreSteps(usage, w, root, Archive(a), ReadDir(w, root).value);
  }

  /**
   * After clearing every listed entry and unpacking `a`: outside `.dir_info` exactly the
   * archived entries are below the root.
   */
  lemma RestoredOutside(w: World, root: Path, names: seq<string>, usage: string, a: map<Path, Node>)
    requires forall k :: k in w && StrictlyBelow(root, k) ==> k[|root|] in names
    ensures var w' := Unpack(Without(w, root, names, usage), root, a);
      forall k :: StrictlyBelow(root, k) && k[|root|] != DIR_INFO ==>
        (k in w' <==> k[|root|..] in a) && (k in w' ==> w'[k] == a[k[|root|..]])
  {
  }

  /**
   * Inside `.dir_info` the entries the archive does not hold survive, except a `save_me`
   * deleted by a full restore; above and beside the root nothing changes.
   */
  lemma RestoredKept(w: World, root: Path, names: seq<string>, usage: string, a: map<Path, Node>)
    ensures var w' := Unpack(Without(w, root, names, usage), root, a);
      && (forall k :: k in w && StrictlyBelow(root, k) && k[|root|] == DIR_INFO && k[|root|..] !in a
            && !(usage == RESTORE && k == ArchivePath(root, SAVE))
            ==> k in w' && w'[k] == w[k])
      && (forall k :: k in w && !StrictlyBelow(root, k) ==> k in w' && w'[k] == w[k])
  {
  }

  /**
   * A restore from an archive leaves below the root exactly the archived entries, outside
   * `.dir_info`; inside `.dir_info` it keeps what the archive does not hold, except the
   * `save_me` a full restore deletes; nothing outside the root changes.
   */
  lemma RestoreSpec(usage: string, w: World, root: Path, a: map<Path, Node>)
    requires ValidUsage(usage) && RootDir(w, root) && SaveIsFile(w, root)
    requires ArchivePath(root, usage) in w && w[ArchivePath(root, usage)] == File(Archive(a))
    ensures Restore(usage, w, root).res.Ok?
    ensures var w' := Restore(usage, w, root).world;
      && (forall k :: StrictlyBelow(root, k) && k[|root|] != DIR_INFO ==>
            (k in w' <==> k[|root|..] in a) && (k in w' ==> w'[k] == a[k[|root|..]]))
      && (forall k :: k in w && StrictlyBelow(root, k) && k[|root|] == DIR_INFO && k[|root|..] !in a
            && !(usage == RESTORE && k == ArchivePath(root, SAVE))
            ==> k in w' && w'[k] == w[k])
      && (forall k :: k in w && !StrictlyBelow(root, k) ==> k in w' && w'[k] == w[k])
  {
    RestoreWorld(usage, w, root, a);
    ListedEntries(w, root);
    var names := ReadDir(w, root).value;
    RestoredOutside(w, root, names, usage, a);
    RestoredKept(w, root, names, usage, a);
  }

  // ---------------------------------------------------------------------------
  // Backing up
  // ---------------------------------------------------------------------------

  /** `create_dir_all` of the root's `.dir_info` adds at most that directory. */
  lemma DirInfoCreated(w: World, root: Path)
    requires RootDir(w, root)
    requires root + [DIR_INFO] !in w || w[root + [DIR_INFO]].Dir?
    ensures CreateDirAll(w, root + [DIR_INFO]) == Ok(w[root + [DIR_INFO] := Dir])
    ensures RootDir(w[root + [DIR_INFO] := Dir], root)
  {
    ArchivePathPlain(root, RESTORE);
    CreateDirAllChild(w, root, DIR_INFO);
    CreateDirAllWF(w, root + [DIR_INFO]);
  }

  /** `create_dir_all` of an existing `.dir_info` changes nothing. */
  lemma DirInfoPresent(w: World, root: Path)
    requires RootDir(w, root) && root + [DIR_INFO] in w && w[root + [DIR_INFO]].Dir?
    ensures CreateDirAll(w, root + [DIR_INFO]) == Ok(w)
  {
    DirInfoCreated(w, root);
    assert w[root + [DIR_INFO] := Dir] == w;
  }

  /**
   * Any usage but "restore" or "save" fails with `InvalidInput` in both halves; the backup
   * has created `.dir_info` by then.
   */
  lemma InvalidUsageRejected(usage: string, w: World, root: Path)
    requires !ValidUsage(usage) && RootDir(w, root)
    requires root + [DIR_INFO] !in w || w[root + [DIR_INFO]].Dir?
    ensures Backup(usage, w, root) == Done(Err(InvalidInput(INVALID_USAGE)), w[root + [DIR_INFO] := Dir])
    ensures Restore(usage, w, root) == Done(Err(InvalidInput(INVALID_USAGE)), w)
  {
    DirInfoCreated(w, root);
  }

  /** Below a stored root, an archive exists exactly when it is stored. */
  lemma ArchiveExists(w: World, root: Path, usage: string)
    requires RootDir(w, root)
    ensures Exists(w, ArchivePath(root, usage)) <==> ArchivePath(root, usage) in w
  {
    var f := ArchivePath(root, usage);
    ArchiveLocate(w, root, usage);
    if f in w {
      AncestorIsDir(w, f, |f| - 1);
      assert f[..|f| - 1] == root + [DIR_INFO];
    }
  }

  /** A stored archive sits in a stored `.dir_info` directory. */
  lemma ArchiveParent(w: World, root: Path, usage: string)
    requires WF(w) && ArchivePath(root, usage) in w
    ensures root + [DIR_INFO] in w && w[root + [DIR_INFO]].Dir?
  {
    var f := ArchivePath(root, usage);
    assert f[..|f| - 1] == root + [DIR_INFO];
    ParentStored(w, f);
  }

  /** `backup_sekai` when `.dir_info` is in place and a restore point already exists. */
  lemma BackupSkips(w: World, root: Path)
    requires CreateDirAll(w, root + [DIR_INFO]) == Ok(w) && Exists(w, ArchivePath(root, RESTORE))
    ensures Backup(RESTORE, w, root) == Done(Ok(SKIPPING), w)
  {
  }

  /** An existing restore point is never overwritten. */
  lemma RestorePointKept(w: World, root: Path)
    requires RootDir(w, root) && CanRestore(w, root)
    ensures Backup(RESTORE, w, root) == Done(Ok(SKIPPING), w)
  {
    ArchiveExists(w, root, RESTORE);
    ArchiveParent(w, root, RESTORE);
    DirInfoPresent(w, root);
    BackupSkips(w, root);
  }

  /** `backup_sekai` when creating `.dir_info` and writing the archive both succeed. */
  lemma BackupWrites(usage: string, w: World, root: Path, w1: World, w2: World)
    requires ValidUsage(usage) && CreateDirAll(w, root + [DIR_INFO]) == Ok(w1)
    requires !(usage == RESTORE && Exists(w1, ArchivePath(root, RESTORE)))
    requires Write(w1, ArchivePath(root, usage), Archive(Packed(w1, root, usage))) == Ok(w2)
    ensures Backup(usage, w, root) == Done(Ok("Backup created at " + Quoted(ArchivePath(root, usage))), w2)
  {
  }

  /** Writing an archive into an existing `.dir_info` stores it there. */
  lemma ArchiveWritten(w: World, root: Path, usage: string, body: Body)
    requires RootDir(w, root) && root + [DIR_INFO] in w && w[root + [DIR_INFO]].Dir?
    requires ArchivePath(root, usage) !in w || w[ArchivePath(root, usage)].File?
    ensures Write(w, ArchivePath(root, usage), body) == Ok(w[ArchivePath(root, usage) := File(body)])
    ensures RootDir(w[ArchivePath(root, usage) := File(body)], root)
  {
    var f := ArchivePath(root, usage);
    ArchivePathPlain(root, usage);
    assert f[..|f| - 1] == root + [DIR_INFO];
    WriteStored(w, f, body);
    WriteWF(w, f, body);
  }

  /**
   * A backup that writes stores, at the archive path, every entry strictly below the root
   * as it was after `.dir_info` was created, except the archive itself; afterwards the
   * matching `can_restore`/`can_save` holds.
   */
  lemma BackupSpec(usage: string, w: World, root: Path)
    requires ValidUsage(usage) && RootDir(w, root)
    requires root + [DIR_INFO] !in w || w[root + [DIR_INFO]].Dir?
    requires ArchivePath(root, usage) !in w || w[ArchivePath(root, usage)].File?
    requires usage == RESTORE ==> !CanRestore(w, root)
    ensures var w1 := w[root + [DIR_INFO] := Dir];
      Backup(usage, w, root) == Done(Ok("Backup created at " + Quoted(ArchivePath(root, usage))),
                                     w1[ArchivePath(root, usage) := File(Archive(Packed(w1, root, usage)))])
    ensures usage == RESTORE ==> CanRestore(Backup(usage, w, root).world, root)
    ensures usage == SAVE ==> CanSave(Backup(usage, w, root).world, root)
  {
    var f := ArchivePath(root, usage);
    DirInfoCreated(w, root);
    var w1 := w[root + [DIR_INFO] := Dir];
    ArchiveExists(w, root, usage);
    ArchiveExists(w1, root, usage);
    var body := Archive(Packed(w1, root, usage));
    ArchiveWritten(w1, root, usage, body);
    var w2 := w1[f := File(body)];
    ArchiveExists(w2, root, usage);
    BackupWrites(usage, w, root, w1, w2);
  }

  /** Outside `.dir_info`, the archive holds exactly the entries the world had below the root. */
  lemma PackedOutside(w0: World, root: Path, usage: string, k: Path)
    requires StrictlyBelow(root, k) && k[|root|] != DIR_INFO
    ensures var a := Packed(w0[root + [DIR_INFO] := Dir], root, usage);
      && (k[|root|..] in a <==> k in w0)
      && (k in w0 ==> a[k[|root|..]] == w0[k])
  {
    var rel := k[|root|..];
    assert root + rel == k;
    assert rel[0] == k[|root|];
    assert k != root + [DIR_INFO];
  }

  /**
   * Backing up and later restoring from the same archive brings back every entry outside
   * `.dir_info` exactly as it was at backup time, whatever happened in between, as long as
   * the archive itself is intact.
   */
  lemma SnapshotRoundTrip(usage: string, w0: World, root: Path, w: World)
    requires ValidUsage(usage) && RootDir(w0, root)
    requires root + [DIR_INFO] !in w0 || w0[root + [DIR_INFO]].Dir?
    requires ArchivePath(root, usage) !in w0 || w0[ArchivePath(root, usage)].File?
    requires usage == RESTORE ==> !CanRestore(w0, root)
    requires RootDir(w, root) && SaveIsFile(w, root)
    requires ArchivePath(root, usage) in w && ArchivePath(root, usage) in Backup(usage, w0, root).world
    requires w[ArchivePath(root, usage)] == Backup(usage, w0, root).world[ArchivePath(root, usage)]
    ensures Restore(usage, w, root).res.Ok?
    ensures forall k :: StrictlyBelow(root, k) && k[|root|] != DIR_INFO ==>
      (k in Restore(usage, w, root).world <==> k in w0)
      && (k in w0 ==> Restore(usage, w, root).world[k] == w0[k])
  {
    BackupSpec(usage, w0, root);
    var a := Packed(w0[root + [DIR_INFO] := Dir], root, usage);
    RestoreSpec(usage, w, root, a);
    forall k | StrictlyBelow(root, k) && k[|root|] != DIR_INFO
      ensures (k[|root|..] in a <==> k in w0) && (k in w0 ==> a[k[|root|..]] == w0[k])
    {
      PackedOutside(w0, root, usage, k);
    }
  }
}
