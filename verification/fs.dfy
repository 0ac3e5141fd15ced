/**
 * The filesystem the shell works on, as an immutable value. A world maps every existing
 * path to its entry; the `std::fs` calls the core makes are functions from a world to a new
 * world or an `io::Error`. Paths given to these calls are resolved component by component,
 * as the kernel does: every component but the last must name an existing directory, and
 * `..` goes up one level (staying at `/`).
 */
module Fs {
  import opened Wrappers
  import opened Text
  import opened Paths
  import opened Json

  /** The contents of a regular file. */
  datatype Body =
    | Text(text: string)                       // text that is not a JSON document
    | Doc(doc: Value)                          // a JSON document, as serde reads it
    | Archive(entries: map<Path, Node>)        // a snapshot: an exact copy of a subtree

  datatype Node = Dir | File(body: Body)

  type World = map<Path, Node>

  /** The `io::Error`s the core can meet, displayed as `std` displays them. */
  datatype IoErr =
    | NotFound
    | AlreadyExists
    | NotADirectory
    | IsADirectory
    | DirectoryNotEmpty
    | Busy
    | InvalidInput(msg: string)
    | Other(msg: string)
  {
    function Message(): string {
      match this
      case NotFound => "No such file or directory (os error 2)"
      case AlreadyExists => "File exists (os error 17)"
      case NotADirectory => "Not a directory (os error 20)"
      case IsADirectory => "Is a directory (os error 21)"
      case DirectoryNotEmpty => "Directory not empty (os error 39)"
      case Busy => "Device or resource busy (os error 16)"
      case InvalidInput(m) => m
      case Other(m) => m
    }
  }

  /**
   * A world as a filesystem can be: the root is a directory, every stored path is plain,
   * and the parent of every stored path is a stored directory.
   */
  predicate WF(w: World) {
    && [] in w && w[[]].Dir?
    && (forall k :: k in w ==> Plain(k))
    && (forall k {:trigger Up(k)} :: k in w && k != [] ==> Up(k) in w && w[Up(k)].Dir?)
  }

  /** In a well-formed world the parent of a stored path is a stored directory. */
  lemma ParentStored(w: World, k: Path)
    requires WF(w) && k in w && k != []
    ensures k[..|k| - 1] in w && w[k[..|k| - 1]].Dir?
  {
    assert Up(k) == k[..|k| - 1];
  }

  // ---------------------------------------------------------------------------
  // Path resolution and queries
  // ---------------------------------------------------------------------------

  function Up(d: Path): Path {
    if d == [] then [] else d[..|d| - 1]
  }

  /** One component of path resolution from directory `d`. */
  function Step(d: Path, c: string): Path {
    if c == ".." then Up(d) else if c == "." || c == "" then d else d + [c]
  }

  /** Resolves a path that must name an existing directory. */
  function LocateDir(w: World, p: Path): (r: Result<Path, IoErr>)
    ensures r.Ok? ==> r.value in w && w[r.value].Dir?
    decreases |p|
  {
    if p == [] then (if [] in w && w[[]].Dir? then Ok([]) else Err(NotFound))
    else
      var d :- LocateDir(w, p[..|p| - 1]);
      var q := Step(d, p[|p| - 1]);
      if q !in w then Err(NotFound)
      else if !w[q].Dir? then Err(NotADirectory)
      else Ok(q)
  }

  /**
   * Resolves a path whose last component need not exist: the stored path it denotes, or the
   * error of the first component that is missing or not a directory.
   */
  function Locate(w: World, p: Path): (r: Result<Path, IoErr>) {
    if p == [] then LocateDir(w, [])
    else
      var d :- LocateDir(w, p[..|p| - 1]);
      Ok(Step(d, p[|p| - 1]))
  }

  /** A path naming a directory resolves the same way as a directory path. */
  lemma LocateDirOfDir(w: World, p: Path)
    requires Locate(w, p).Ok? && Locate(w, p).value in w && w[Locate(w, p).value].Dir?
    ensures LocateDir(w, p) == Locate(w, p)
  {
  }

  /** `fs::metadata(p)`: the entry a path denotes, if any. */
  function Stat(w: World, p: Path): (r: Option<Node>)
    ensures r.Some? <==> Locate(w, p).Ok? && Locate(w, p).value in w
  {
    match Locate(w, p)
    case Ok(q) => if q in w then Some(w[q]) else None
    case Err(_) => None
  }

  /** `Path::exists` */
  predicate Exists(w: World, p: Path) {
    Stat(w, p).Some?
  }

  /** `Path::is_dir` */
  predicate IsDir(w: World, p: Path) {
    Stat(w, p) == Some(Dir)
  }

  /** `Path::is_file` */
  predicate IsFile(w: World, p: Path) {
    Stat(w, p).Some? && Stat(w, p).value.File?
  }

  /** The names stored directly below `d`. */
  function Children(w: World, d: Path): set<string> {
    set k | k in w && |k| == |d| + 1 && k[..|d|] == d :: k[|d|]
  }

  lemma ChildrenMember(w: World, d: Path, n: string)
    ensures n in Children(w, d) <==> d + [n] in w
  {
    if d + [n] in w {
      var k := d + [n];
      assert k[..|d|] == d && k[|d|] == n;
    }
    if n in Children(w, d) {
      var k :| k in w && |k| == |d| + 1 && k[..|d|] == d && k[|d|] == n;
      assert k == d + [n];
    }
  }

  /** `fs::read_dir`: the entry names of a directory, in ascending order. */
  function ReadDir(w: World, p: Path): (r: Result<seq<string>, IoErr>)
    ensures r.Ok? <==> IsDir(w, p)
    ensures r.Ok? ==> StrictlyAscending(r.value)
    ensures r.Ok? ==> forall n :: n in r.value <==> n in Children(w, Locate(w, p).value)
  {
    var q :- Locate(w, p);
    if q !in w then Err(NotFound)
    else if !w[q].Dir? then Err(NotADirectory)
    else Ok(SortedList(Children(w, q)))
  }

  /** `fs::read_to_string` / `File::open` followed by a read: the contents of a file. */
  function Read(w: World, p: Path): (r: Result<Body, IoErr>)
    ensures r.Ok? <==> IsFile(w, p)
    ensures r.Ok? ==> Stat(w, p) == Some(File(r.value))
  {
    var q :- Locate(w, p);
    if q !in w then Err(NotFound)
    else if w[q].Dir? then Err(IsADirectory)
    else Ok(w[q].body)
  }

  // ---------------------------------------------------------------------------
  // Mutations
  // ---------------------------------------------------------------------------

  /** `fs::write` / `File::create`: creates or truncates a regular file. */
  function Write(w: World, p: Path, body: Body): (r: Result<World, IoErr>)
    ensures r.Ok? ==> Locate(w, p).Ok? && r.value == w[Locate(w, p).value := File(body)]
    ensures r.Ok? <==> Locate(w, p).Ok? && !IsDir(w, p)
  {
    var q :- Locate(w, p);
    if q in w && w[q].Dir? then Err(IsADirectory) else Ok(w[q := File(body)])
  }

  /** `fs::create_dir` */
  function CreateDir(w: World, p: Path): (r: Result<World, IoErr>)
    ensures r.Ok? <==> Locate(w, p).Ok? && !Exists(w, p)
    ensures r.Ok? ==> r.value == w[Locate(w, p).value := Dir]
  {
    var q :- Locate(w, p);
    if q in w then Err(AlreadyExists) else Ok(w[q := Dir])
  }

  /**
   * `fs::create_dir_all`, as the standard library implements it: try `create_dir`; when a
   * parent is missing, create the parents first and try again; any other failure is fine
   * as long as the path is now a directory.
   */
  function CreateDirAll(w: World, p: Path): (r: Result<World, IoErr>)
    ensures r.Ok? ==> IsDir(r.value, p) || (Exists(w, p) && IsDir(w, p) && r.value == w)
    decreases |p|
  {
    match CreateDir(w, p)
    case Ok(w1) =>
      CreateDirIsDir(w, p);
      Ok(w1)
    case Err(e) =>
      if e != NotFound then (if IsDir(w, p) then Ok(w) else Err(e))
      else if p == [] then Err(Other("failed to create whole tree"))
      else
        var w1 :- CreateDirAll(w, p[..|p| - 1]);
        match CreateDir(w1, p)
        case Ok(w2) =>
          CreateDirIsDir(w1, p);
          Ok(w2)
        case Err(e2) => if IsDir(w1, p) then Ok(w1) else Err(e2)
  }

  lemma CreateDirIsDir(w: World, p: Path)
    requires CreateDir(w, p).Ok?
    ensures IsDir(CreateDir(w, p).value, p)
  {
    var q := Locate(w, p).value;
    var w' := CreateDir(w, p).value;
    LocateGrows(w, w', p);
  }

  /** `create_dir_all` only adds directories: every stored path keeps its entry. */
  lemma {:induction false} CreateDirAllGrows(w: World, p: Path)
    requires CreateDirAll(w, p).Ok?
    ensures forall k :: k in w ==> k in CreateDirAll(w, p).value && CreateDirAll(w, p).value[k] == w[k]
    decreases |p|
  {
    if CreateDir(w, p).Err? && CreateDir(w, p).error == NotFound && p != [] {
      CreateDirAllGrows(w, p[..|p| - 1]);
    }
  }

  /** Adding entries never breaks a resolution that succeeded. */
  lemma {:induction false} LocateDirGrows(w: World, w': World, p: Path)
    requires LocateDir(w, p).Ok?
    requires forall k :: k in w ==> k in w' && w'[k] == w[k]
    ensures LocateDir(w', p) == LocateDir(w, p)
    decreases |p|
  {
    if p != [] {
      LocateDirGrows(w, w', p[..|p| - 1]);
    }
  }

  /** `w'` keeps every directory of `w` a directory. */
  predicate KeepsDirs(w: World, w': World) {
    forall k :: k in w && w[k].Dir? ==> k in w' && w'[k].Dir?
  }

  /** Resolution only looks at directories, so keeping them keeps every resolution. */
  lemma {:induction false} LocateDirKeeps(w: World, w': World, p: Path)
    requires LocateDir(w, p).Ok? && KeepsDirs(w, w')
    ensures LocateDir(w', p) == LocateDir(w, p)
    decreases |p|
  {
    if p != [] {
      LocateDirKeeps(w, w', p[..|p| - 1]);
    }
  }

  lemma LocateKeeps(w: World, w': World, p: Path)
    requires Locate(w, p).Ok? && KeepsDirs(w, w')
    ensures Locate(w', p) == Locate(w, p)
  {
    if p == [] {
      LocateDirKeeps(w, w', []);
    } else {
      LocateDirKeeps(w, w', p[..|p| - 1]);
    }
  }

  lemma LocateGrows(w: World, w': World, p: Path)
    requires Locate(w, p).Ok?
    requires forall k :: k in w ==> k in w' && w'[k] == w[k]
    ensures Locate(w', p) == Locate(w, p)
  {
    if p == [] {
      LocateDirGrows(w, w', []);
    } else {
      LocateDirGrows(w, w', p[..|p| - 1]);
    }
  }

  /** `fs::remove_file` */
  function RemoveFile(w: World, p: Path): (r: Result<World, IoErr>)
    ensures r.Ok? <==> IsFile(w, p)
    ensures r.Ok? ==> r.value == w - {Locate(w, p).value}
  {
    var q :- Locate(w, p);
    if q !in w then Err(NotFound)
    else if w[q].Dir? then Err(IsADirectory)
    else Ok(w - {q})
  }

  /** `fs::remove_dir`: only an empty directory, never the root. */
  function RemoveDir(w: World, p: Path): (r: Result<World, IoErr>)
    ensures r.Ok? <==> IsDir(w, p) && Locate(w, p).value != [] && Children(w, Locate(w, p).value) == {}
    ensures r.Ok? ==> r.value == w - {Locate(w, p).value}
  {
    var q :- Locate(w, p);
    if q !in w then Err(NotFound)
    else if !w[q].Dir? then Err(NotADirectory)
    else if Children(w, q) != {} then Err(DirectoryNotEmpty)
    else if q == [] then Err(Busy)
    else Ok(w - {q})
  }

  /** The stored paths at or below `q`. */
  function Below(w: World, q: Path): set<Path> {
    set k | k in w && IsPrefix(q, k)
  }

  /** `fs::remove_dir_all`: a directory and everything below it. */
  function RemoveDirAll(w: World, p: Path): (r: Result<World, IoErr>)
    ensures r.Ok? <==> IsDir(w, p) && Locate(w, p).value != []
    ensures r.Ok? ==> r.value == w - Below(w, Locate(w, p).value)
  {
    var q :- Locate(w, p);
    if q !in w then Err(NotFound)
    else if !w[q].Dir? then Err(NotADirectory)
    else if q == [] then Err(Busy)
    else Ok(w - Below(w, q))
  }

  /** `fs::copy`: the contents of a regular file written to `dst`. */
  function CopyFile(w: World, src: Path, dst: Path): (r: Result<World, IoErr>)
    ensures r.Ok? ==> IsFile(w, src) && r == Write(w, dst, Read(w, src).value)
  {
    var body :- (match Read(w, src)
      case Ok(b) => Ok(b)
      case Err(IsADirectory) =>
        Err(InvalidInput("the source path is neither a regular file nor a symlink to a regular file"))
      case Err(e) => Err(e));
    Write(w, dst, body)
  }

  /** `fs::rename` of a regular file: replaces a file at `dst`, refuses a directory there. */
  function RenameFile(w: World, src: Path, dst: Path): (r: Result<World, IoErr>)
    ensures r.Ok? ==> IsFile(w, src) && Locate(w, dst).Ok? && !IsDir(w, dst)
  {
    var s :- Locate(w, src);
    var d :- Locate(w, dst);
    if s !in w then Err(NotFound)
    else if !w[s].File? then Err(Other("rename of a directory is not part of this model"))
    else if d in w && w[d].Dir? then Err(IsADirectory)
    else if s == d then Ok(w)
    else Ok((w - {s})[d := w[s]])
  }

  // ---------------------------------------------------------------------------
  // Subtrees (the archive format)
  // ---------------------------------------------------------------------------

  predicate StrictlyBelow(root: Path, k: Path) {
    |root| < |k| && k[..|root|] == root
  }

  /** The entries strictly below `root`, keyed by their path relative to `root`. */
  function Subtree(w: World, root: Path): (t: map<Path, Node>)
    ensures forall r :: r in t <==> r != [] && root + r in w
    ensures forall r :: r in t ==> t[r] == w[root + r]
  {
    var keys := set k | k in w && StrictlyBelow(root, k) :: k[|root|..];
    forall r | r in keys ensures root + r in w && r != [] {
      var k :| k in w && StrictlyBelow(root, k) && r == k[|root|..];
      assert root + r == k;
    }
    forall r | r != [] && root + r in w ensures r in keys {
      var k := root + r;
      assert StrictlyBelow(root, k) && k[|root|..] == r;
    }
    map r | r in keys :: w[root + r]
  }

  // ---------------------------------------------------------------------------
  // Well-formedness lemmas
  // ---------------------------------------------------------------------------

  /** In a well-formed world a resolved path is plain and its parent is a directory. */
  lemma {:induction false} LocateDirPlain(w: World, p: Path)
    requires WF(w)
    requires LocateDir(w, p).Ok?
    ensures Plain(LocateDir(w, p).value)
  {
  }

  lemma LocatePlain(w: World, p: Path)
    requires WF(w) && WellFormed(p)
    requires Locate(w, p).Ok?
    ensures var q := Locate(w, p).value;
      Plain(q) && (q != [] ==> Up(q) in w && w[Up(q)].Dir?)
  {
    if p != [] {
      var d := LocateDir(w, p[..|p| - 1]).value;
      var c := p[|p| - 1];
      assert IsComp(c);
      if c == ".." {
        if d != [] {
          var u := d[..|d| - 1];
          assert Plain(u) by {
            forall i | 0 <= i < |u| ensures IsComp(u[i]) && u[i] != ".." {
              assert u[i] == d[i];
            }
          }
          if u != [] {
            ParentStored(w, d);
            ParentStored(w, u);
          }
        }
      } else {
        var q := d + [c];
        assert Up(q) == d;
        assert Plain(q) by {
          forall i | 0 <= i < |q| ensures IsComp(q[i]) && q[i] != ".." {
            if i < |d| { assert q[i] == d[i]; }
          }
        }
      }
    }
  }

  /** A stored directory resolves to itself. */
  lemma {:induction false} LocateDirStored(w: World, p: Path)
    requires WF(w) && p in w && w[p].Dir?
    ensures LocateDir(w, p) == Ok(p)
    decreases |p|
  {
    if p != [] {
      var init := p[..|p| - 1];
      ParentStored(w, p);
      LocateDirStored(w, init);
      assert Plain(p);
      assert IsComp(p[|p| - 1]) && p[|p| - 1] != "..";
      StepPlain(init, p[|p| - 1]);
      assert init + [p[|p| - 1]] == p;
    }
  }

  /** A plain path whose parent is a stored directory resolves to itself. */
  lemma LocateStored(w: World, p: Path)
    requires WF(w) && Plain(p)
    requires p == [] || p in w || (p[..|p| - 1] in w && w[p[..|p| - 1]].Dir?)
    ensures Locate(w, p) == Ok(p)
  {
    if p == [] {
      LocateDirStored(w, []);
    } else {
      if p in w {
        ParentStored(w, p);
      }
      var init, last := p[..|p| - 1], p[|p| - 1];
      LocateDirStored(w, init);
      assert IsComp(last) && last != "..";
      StepPlain(init, last);
      assert init + [last] == p;
      assert Locate(w, p) == Ok(Step(init, last));
    }
  }

  /** A plain component steps down into the directory of that name. */
  lemma StepPlain(d: Path, c: string)
    requires IsComp(c) && c != ".."
    ensures Step(d, c) == d + [c]
  {
  }

  lemma WriteWF(w: World, p: Path, body: Body)
    requires WF(w) && WellFormed(p) && Write(w, p, body).Ok?
    ensures WF(Write(w, p, body).value)
  {
    LocatePlain(w, p);
  }

  lemma CreateDirWF(w: World, p: Path)
    requires WF(w) && WellFormed(p) && CreateDir(w, p).Ok?
    ensures WF(CreateDir(w, p).value)
  {
    LocatePlain(w, p);
  }

  lemma {:induction false} CreateDirAllWF(w: World, p: Path)
    requires WF(w) && WellFormed(p) && CreateDirAll(w, p).Ok?
    ensures WF(CreateDirAll(w, p).value)
    decreases |p|
  {
    if CreateDir(w, p).Ok? {
      CreateDirWF(w, p);
    } else if CreateDir(w, p).error == NotFound && p != [] {
      var init := p[..|p| - 1];
      assert WellFormed(init) by {
        forall i | 0 <= i < |init| ensures IsComp(init[i]) { assert init[i] == p[i]; }
      }
      CreateDirAllWF(w, init);
      var w1 := CreateDirAll(w, init).value;
      if CreateDir(w1, p).Ok? {
        CreateDirWF(w1, p);
      }
    }
  }

  lemma RemoveFileWF(w: World, p: Path)
    requires WF(w) && RemoveFile(w, p).Ok?
    ensures WF(RemoveFile(w, p).value)
  {
  }

  lemma SnocSplit(k: Path)
    requires k != []
    ensures k == k[..|k| - 1] + [k[|k| - 1]]
  {
  }

  lemma RemoveDirWF(w: World, p: Path)
    requires WF(w) && RemoveDir(w, p).Ok?
    ensures WF(RemoveDir(w, p).value)
  {
    var q := Locate(w, p).value;
    var w' := RemoveDir(w, p).value;
    assert w' == w - {q};
    forall k | k in w' && k != [] ensures k[..|k| - 1] in w' && w'[k[..|k| - 1]].Dir? {
      ParentStored(w, k);
      var n := k[|k| - 1];
      assert q + [n] != q;
      if k[..|k| - 1] == q {
        SnocSplit(k);
        ChildrenMember(w, q, n);
        assert false;
      }
    }
  }

  lemma RemoveDirAllWF(w: World, p: Path)
    requires WF(w) && RemoveDirAll(w, p).Ok?
    ensures WF(RemoveDirAll(w, p).value)
  {
    var q := Locate(w, p).value;
    var w' := RemoveDirAll(w, p).value;
    forall k | k in w' && k != [] ensures !IsPrefix(q, k[..|k| - 1]) {
      assert !IsPrefix(q, k);
    }
  }

  // ---------------------------------------------------------------------------
  // Lemmas about a single stored directory
  // ---------------------------------------------------------------------------

  /** `create_dir_all` of a new name inside a stored directory stores exactly that directory. */
  lemma CreateDirAllChild(w: World, d: Path, n: string)
    requires WF(w) && d in w && w[d].Dir? && Plain(d + [n])
    ensures CreateDirAll(w, d + [n]).Ok? <==> (d + [n] !in w || w[d + [n]].Dir?)
    ensures CreateDirAll(w, d + [n]).Ok? ==> CreateDirAll(w, d + [n]).value == w[d + [n] := Dir]
  {
    var p := d + [n];
    assert p[..|p| - 1] == d;
    LocateStored(w, p);
    if p in w && w[p].Dir? {
      assert w[p := Dir] == w;
    }
  }

  /** Writing a file whose parent is a stored directory stores it under its own path. */
  lemma WriteStored(w: World, p: Path, body: Body)
    requires WF(w) && Plain(p) && p != [] && p[..|p| - 1] in w && w[p[..|p| - 1]].Dir?
    requires p !in w || w[p].File?
    ensures Write(w, p, body) == Ok(w[p := File(body)])
  {
    LocateStored(w, p);
  }

  /** Changing the entry at a path of another depth leaves a directory's listing alone. */
  lemma ChildrenFrame(w: World, q: Path, n: Node, d: Path)
    requires |q| != |d| + 1
    ensures Children(w[q := n], d) == Children(w, d)
  {
    forall c ensures c in Children(w[q := n], d) <==> c in Children(w, d) {
      ChildrenMember(w[q := n], d, c);
      ChildrenMember(w, d, c);
    }
  }
}
