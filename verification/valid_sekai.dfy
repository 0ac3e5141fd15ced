/**
 * Reconciliation of the metadata records with the directory tree: `create_dir_info` merges a
 * directory's record with its current entries (or writes the defaults), and the recursive
 * walk does so for every directory of a sekai (the game world's directory tree).
 */
module ValidSekai {
  import opened Wrappers
  import opened Text
  import opened Paths
  import opened Json
  import opened Fs
  import opened Env
  import opened InfoReader

  /** The entry names of `dir` other than `.dir_info`; none when it cannot be listed. */
  function CurrentEntries(w: World, dir: Path): (r: set<string>)
    ensures DIR_INFO !in r
    ensures ReadDir(w, dir).Ok? ==> forall n :: n in r <==> n in ReadDir(w, dir).value && n != DIR_INFO
    ensures ReadDir(w, dir).Err? ==> r == {}
  {
    match ReadDir(w, dir)
    case Ok(names) => set n | n in names && n != DIR_INFO
    case Err(_) => {}
  }

  /** `HashMap::retain` with a key set. */
  function Retain(m: map<string, Bag>, keep: set<string>): (r: map<string, Bag>)
    ensures r.Keys == m.Keys * keep
    ensures forall k :: k in r ==> r[k] == m[k]
  {
    map k | k in m && k in keep :: m[k]
  }

  /**
   * The merge of an existing record with the defaults: empty text fields take the default,
   * objects whose names vanished are dropped, and every current name the record does not
   * track gets its default entry.
   */
  function Merge(existing: Info, default: Info, current: set<string>): (r: Info)
    ensures r.objects.Keys == (existing.objects.Keys * current) + (default.objects.Keys * current)
    ensures forall k :: k in existing.objects && k in current ==> r.objects[k] == existing.objects[k]
    ensures forall k :: k in default.objects && k in current && k !in existing.objects ==>
              r.objects[k] == default.objects[k]
    ensures Trim(existing.location) != [] ==> r.location == existing.location
    ensures Trim(existing.about) != [] ==> r.about == existing.about
  {
    var location := if Trim(existing.location) == [] then default.location else existing.location;
    var about := if Trim(existing.about) == [] then default.about else existing.about;
    // The `retain` and the inserts of missing defaults, as one map: a current name keeps the
    // existing entry when there is one and otherwise takes the default entry.
    var objects := map k | k in current && (k in existing.objects || k in default.objects) ::
      if k in existing.objects then existing.objects[k] else default.objects[k];
    MergedKeys(existing.objects, default.objects, current, objects.Keys);
    Info(location, about, objects)
  }

  lemma MergedKeys(e: map<string, Bag>, d: map<string, Bag>, current: set<string>, keys: set<string>)
    requires forall k :: k in keys <==> k in current && (k in e || k in d)
    ensures keys == (e.Keys * current) + (d.Keys * current)
  {
  }

  /** The fill-in of empty text fields never happens for a record that was read successfully. */
  lemma MergeKeepsValidText(existing: Info, default: Info, current: set<string>)
    requires Valid(existing)
    ensures Merge(existing, default, current).location == existing.location
    ensures Merge(existing, default, current).about == existing.about
  {
    TrimOfTrimmed(existing.location);
    TrimOfTrimmed(existing.about);
  }

  /** The record the reconciliation reads, if any: the validated record when it exists and reads. */
  function ExistingInfo(w: World, dir: Path): (r: Option<Info>)
    ensures r.Some? <==> Exists(w, InfoPath(dir)) && ReadValidateInfo(w, InfoPath(dir)).Ok?
    ensures r.Some? ==> r.value == ReadValidateInfo(w, InfoPath(dir)).value && Valid(r.value)
  {
    if Exists(w, InfoPath(dir)) then ReadValidateInfo(w, InfoPath(dir)).ToOption() else None
  }

  /** The record `create_dir_info` writes, given the world after `.dir_info` exists. */
  function Reconciled(env: Env, w1: World, dir: Path, home: bool, existing: Option<Info>): (r: Info)
    ensures DIR_INFO !in r.objects
    ensures r.objects.Keys <= CurrentEntries(w1, dir)
    ensures DefaultInfo(env, w1, dir, home).objects.Keys * CurrentEntries(w1, dir) <= r.objects.Keys
    ensures existing.None? ==> r == DefaultInfo(env, w1, dir, home).(objects := r.objects)
  {
    var default := DefaultInfo(env, w1, dir, home);
    var current := CurrentEntries(w1, dir);
    match existing
    case Some(e) =>
      var r := Merge(e, default, current);
      assert r.objects.Keys <= current;
      r
    case None =>
      var objects := Retain(default.objects, current);
      assert objects.Keys <= current;
      default.(objects := objects)
  }

  /**
   * `create_dir_info(dir, home_dir)`: makes sure `dir/.dir_info` exists and writes the
   * reconciled record to `dir/.dir_info/info.json`. A directory named `.dir_info` is left
   * alone. The flag is false when the directory or the record cannot be written.
   */
  function CreateDirInfo(env: Env, w: World, dir: Path, home: bool): (r: (bool, World))
    ensures FileName(dir) == Some(DIR_INFO) ==> r == (true, w)
    ensures FileName(dir) != Some(DIR_INFO) && CreateDirAll(w, dir + [DIR_INFO]).Err? ==> r == (false, w)
    ensures r.0 && FileName(dir) != Some(DIR_INFO) ==>
      CreateDirAll(w, dir + [DIR_INFO]).Ok?
      && var w1 := CreateDirAll(w, dir + [DIR_INFO]).value;
      var rec := Reconciled(env, w1, dir, home, ExistingInfo(w, dir));
      WriteInfo(w1, InfoPath(dir), rec) == Ok(r.1)
  {
    if FileName(dir) == Some(DIR_INFO) then (true, w)
    else
      var existing := ExistingInfo(w, dir);
      match CreateDirAll(w, dir + [DIR_INFO])
      case Err(_) => (false, w)
      case Ok(w1) =>
        match WriteInfo(w1, InfoPath(dir), Reconciled(env, w1, dir, home, existing))
        case Ok(w2) => (true, w2)
        case Err(_) => (false, w1)
  }

  // ---------------------------------------------------------------------------
  // What the reconciliation writes
  // ---------------------------------------------------------------------------

  /** A default location is never blank: it starts with `HOME` or `/`. */
  lemma DefaultLocationNotBlank(env: Env, dir: Path, home: bool)
    ensures Trim(DefaultLocation(env, dir, home)) != []
  {
    var s := DefaultLocation(env, dir, home);
    assert s[0] == 'H' || s[0] == '/';
    TrimStartOfTrimmed(s);
  }

  /** Every entry a default record carries passes the reader unchanged. */
  lemma DefaultObjectsNormal(w: World, path: Path, keep: set<string>)
    ensures forall n :: n in Retain(DefaultObjects(w, path), keep) ==>
      NormalizeBag(Retain(DefaultObjects(w, path), keep)[n]) == Some(Retain(DefaultObjects(w, path), keep)[n])
  {
    DefaultBagNormal();
  }

  /** Merging a valid record with defaults yields a valid record. */
  lemma MergeValid(existing: Info, env: Env, w: World, dir: Path, home: bool, current: set<string>)
    requires Valid(existing)
    ensures Valid(Merge(existing, DefaultInfo(env, w, dir, home), current))
  {
    MergeKeepsValidText(existing, DefaultInfo(env, w, dir, home), current);
    DefaultBagNormal();
  }

  /** After a successful `create_dir_info` the record written is the one that reads back. */
  lemma CreateDirInfoStored(env: Env, w: World, dir: Path, home: bool)
    requires FileName(dir) != Some(DIR_INFO) && CreateDirInfo(env, w, dir, home).0
    ensures var w1 := CreateDirAll(w, dir + [DIR_INFO]).value;
      ReadValidateInfo(CreateDirInfo(env, w, dir, home).1, InfoPath(dir))
        == ProcessInfo(Reconciled(env, w1, dir, home, ExistingInfo(w, dir)))
  {
    var w1 := CreateDirAll(w, dir + [DIR_INFO]).value;
    ReadAfterWrite(w1, InfoPath(dir), Reconciled(env, w1, dir, home, ExistingInfo(w, dir)));
  }

  /**
   * A record that read before the reconciliation keeps its text and the entries of names
   * still present, drops vanished names, and gains an unlocked entry for each untracked
   * current name; `.dir_info` is never listed.
   */
  lemma CreateDirInfoMerges(env: Env, w: World, dir: Path, home: bool)
    requires FileName(dir) != Some(DIR_INFO) && CreateDirInfo(env, w, dir, home).0
    requires ExistingInfo(w, dir).Some?
    ensures var w1 := CreateDirAll(w, dir + [DIR_INFO]).value;
      var back := ReadValidateInfo(CreateDirInfo(env, w, dir, home).1, InfoPath(dir));
      var current := CurrentEntries(w1, dir);
      var e := ExistingInfo(w, dir).value;
      back.Ok?
      && DIR_INFO !in back.value.objects
      && back.value.location == e.location && back.value.about == e.about
      && back.value.objects.Keys == (e.objects.Keys * current) + (DefaultObjects(w1, env.normalize(dir)).Keys * current)
      && (forall n :: n in e.objects && n in current ==> back.value.objects[n] == e.objects[n])
      && (forall n :: n in back.value.objects && n !in e.objects ==>
            back.value.objects[n] == WithLocked(DEFAULT_PERMISSIONS))
  {
    var w1 := CreateDirAll(w, dir + [DIR_INFO]).value;
    var e := ExistingInfo(w, dir).value;
    var rec := Reconciled(env, w1, dir, home, ExistingInfo(w, dir));
    MergedReadsBack(env, w, dir, home);
    assert rec == Merge(e, DefaultInfo(env, w1, dir, home), CurrentEntries(w1, dir));
    MergeKeepsValidText(e, DefaultInfo(env, w1, dir, home), CurrentEntries(w1, dir));
  }

  /** When a record read before the reconciliation, the merged record is what reads back. */
  lemma MergedReadsBack(env: Env, w: World, dir: Path, home: bool)
    requires FileName(dir) != Some(DIR_INFO) && CreateDirInfo(env, w, dir, home).0
    requires ExistingInfo(w, dir).Some?
    ensures var w1 := CreateDirAll(w, dir + [DIR_INFO]).value;
      ReadValidateInfo(CreateDirInfo(env, w, dir, home).1, InfoPath(dir))
        == Ok(Reconciled(env, w1, dir, home, ExistingInfo(w, dir)))
  {
    var w1 := CreateDirAll(w, dir + [DIR_INFO]).value;
    var e := ExistingInfo(w, dir).value;
    var rec := Reconciled(env, w1, dir, home, ExistingInfo(w, dir));
    assert rec == Merge(e, DefaultInfo(env, w1, dir, home), CurrentEntries(w1, dir));
    CreateDirInfoStored(env, w, dir, home);
    MergeValid(e, env, w1, dir, home, CurrentEntries(w1, dir));
    ProcessInfoOfValid(rec);
  }

  /**
   * A record that was missing, or that failed to read, is discarded entirely: what reads
   * back is the default record (location `HOME` for the home directory), restricted to the
   * current names, every entry unlocked.
   */
  lemma CreateDirInfoReplaces(env: Env, w: World, dir: Path, home: bool)
    requires FileName(dir) != Some(DIR_INFO) && CreateDirInfo(env, w, dir, home).0
    requires ExistingInfo(w, dir).None?
    ensures var w1 := CreateDirAll(w, dir + [DIR_INFO]).value;
      var back := ReadValidateInfo(CreateDirInfo(env, w, dir, home).1, InfoPath(dir));
      back.Ok?
      && back.value.location == Trim(DefaultLocation(env, dir, home))
      && back.value.about == DefaultAbout(env, dir, home)
      && back.value.objects.Keys == DefaultObjects(w1, env.normalize(dir)).Keys * CurrentEntries(w1, dir)
      && (forall n :: n in back.value.objects ==> back.value.objects[n] == WithLocked(DEFAULT_PERMISSIONS))
  {
    var w1 := CreateDirAll(w, dir + [DIR_INFO]).value;
    var rec := Reconciled(env, w1, dir, home, None);
    CreateDirInfoStored(env, w, dir, home);
    DefaultLocationNotBlank(env, dir, home);
    DefaultAboutTrimmed(env, dir, home);
    TrimOfTrimmed(DefaultAbout(env, dir, home));
    DefaultObjectsNormal(w1, env.normalize(dir), CurrentEntries(w1, dir));
    assert rec.objects == Retain(DefaultObjects(w1, env.normalize(dir)), CurrentEntries(w1, dir));
    var p := ProcessInfo(rec);
    assert p.Ok?;
    assert forall n :: n in p.value.objects ==> p.value.objects[n] == rec.objects[n];
  }

  // ---------------------------------------------------------------------------
  // Idempotence
  // ---------------------------------------------------------------------------

  /** A record that already agrees with the directory is what the merge returns. */
  lemma MergeFixpoint(rec: Info, default: Info, current: set<string>)
    requires rec.objects.Keys <= current
    requires default.objects.Keys * current <= rec.objects.Keys
    requires Trim(rec.location) != [] && Trim(rec.about) != []
    ensures Merge(rec, default, current) == rec
  {
    var m := Merge(rec, default, current);
    assert m.objects.Keys == rec.objects.Keys;
    assert forall k :: k in m.objects ==> m.objects[k] == rec.objects[k];
    assert m.objects == rec.objects;
    assert m.location == rec.location && m.about == rec.about;
  }

  /** The record the reconciliation writes is valid when the default location is trimmed. */
  lemma ReconciledValid(env: Env, w1: World, dir: Path, home: bool, existing: Option<Info>)
    requires existing.Some? ==> Valid(existing.value)
    requires IsTrimmed(DefaultLocation(env, dir, home))
    ensures Valid(Reconciled(env, w1, dir, home, existing))
  {
    match existing
    case Some(e) =>
      MergeValid(e, env, w1, dir, home, CurrentEntries(w1, dir));
    case None =>
      DefaultLocationNotBlank(env, dir, home);
      TrimOfTrimmed(DefaultLocation(env, dir, home));
      DefaultAboutTrimmed(env, dir, home);
      DefaultObjectsNormal(w1, env.normalize(dir), CurrentEntries(w1, dir));
  }

  lemma InfoPathsPlain(dir: Path)
    requires Plain(dir)
    ensures Plain(dir + [DIR_INFO]) && Plain(InfoPath(dir))
    ensures InfoPath(dir) == (dir + [DIR_INFO]) + [INFO_JSON]
  {
    assert '/' !in DIR_INFO && '/' !in INFO_JSON;
    PlainSnoc(dir, DIR_INFO);
    PlainSnoc(dir + [DIR_INFO], INFO_JSON);
  }

  lemma UpdateSame(w: World, k: Path, v: Node)
    requires k in w && w[k] == v
    ensures w[k := v] == w
  {
  }

  /**
   * The first run in a stored directory: `.dir_info` becomes a directory and the record is
   * stored as a document at the record path.
   */
  lemma FirstRun(env: Env, w: World, dir: Path, home: bool)
    requires WF(w) && Plain(dir) && dir in w && w[dir].Dir?
    requires FileName(dir) != Some(DIR_INFO)
    requires CreateDirInfo(env, w, dir, home).0
    ensures var di := dir + [DIR_INFO];
      var w1 := w[di := Dir];
      var rec := Reconciled(env, w1, dir, home, ExistingInfo(w, dir));
      && CreateDirAll(w, di) == Ok(w1)
      && CreateDirInfo(env, w, dir, home).1 == w1[InfoPath(dir) := File(Doc(ToJson(rec)))]
      && WF(w1) && WF(CreateDirInfo(env, w, dir, home).1)
      && di in w1 && w1[di] == Dir
  {
    var di := dir + [DIR_INFO];
    var ip := InfoPath(dir);
    InfoPathsPlain(dir);
    CreateDirAllChild(w, dir, DIR_INFO);
    var w1 := w[di := Dir];
    CreateDirAllWF(w, di);
    var rec := Reconciled(env, w1, dir, home, ExistingInfo(w, dir));
    assert ip[..|ip| - 1] == di;
    LocateStored(w1, ip);
    WriteStored(w1, ip, Doc(ToJson(rec)));
    WriteWF(w1, ip, Doc(ToJson(rec)));
  }

  /** Storing the record file leaves the listing of the directory, hence its defaults, unchanged. */
  lemma ListingUnchanged(env: Env, w1: World, dir: Path, home: bool, body: Body)
    requires WF(w1) && Plain(dir) && dir in w1 && w1[dir].Dir?
    requires WF(w1[InfoPath(dir) := File(body)])
    ensures var w2 := w1[InfoPath(dir) := File(body)];
      ReadDir(w2, dir) == ReadDir(w1, dir)
      && CurrentEntries(w2, dir) == CurrentEntries(w1, dir)
      && DefaultObjects(w2, dir) == DefaultObjects(w1, dir)
  {
    var w2 := w1[InfoPath(dir) := File(body)];
    ChildrenFrame(w1, InfoPath(dir), File(body), dir);
    LocateStored(w1, dir);
    LocateStored(w2, dir);
  }

  /**
   * A second run over a world where `.dir_info` is a directory and the record file holds a
   * valid record that already covers exactly the current names rewrites that same record.
   */
  lemma SecondRun(env: Env, w2: World, dir: Path, home: bool, rec: Info)
    requires WF(w2) && Plain(dir) && dir in w2 && w2[dir].Dir?
    requires FileName(dir) != Some(DIR_INFO)
    requires dir + [DIR_INFO] in w2 && w2[dir + [DIR_INFO]] == Dir
    requires InfoPath(dir) in w2 && w2[InfoPath(dir)] == File(Doc(ToJson(rec)))
    requires ExistingInfo(w2, dir) == Some(rec)
    requires rec.objects.Keys <= CurrentEntries(w2, dir)
    requires DefaultInfo(env, w2, dir, home).objects.Keys * CurrentEntries(w2, dir) <= rec.objects.Keys
    ensures CreateDirInfo(env, w2, dir, home) == (true, w2)
  {
    var di := dir + [DIR_INFO];
    var ip := InfoPath(dir);
    InfoPathsPlain(dir);
    CreateDirAllChild(w2, dir, DIR_INFO);
    UpdateSame(w2, di, Dir);
    TrimOfTrimmed(rec.location);
    TrimOfTrimmed(rec.about);
    MergeFixpoint(rec, DefaultInfo(env, w2, dir, home), CurrentEntries(w2, dir));
    assert Reconciled(env, w2, dir, home, Some(rec)) == rec;
    assert ip[..|ip| - 1] == di;
    WriteStored(w2, ip, Doc(ToJson(rec)));
    UpdateSame(w2, ip, File(Doc(ToJson(rec))));
  }

  /** After the first run the record file reads back as the record written. */
  lemma FirstRunReadsBack(env: Env, w: World, dir: Path, home: bool)
    requires FileName(dir) != Some(DIR_INFO)
    requires IsTrimmed(DefaultLocation(env, dir, home))
    requires CreateDirInfo(env, w, dir, home).0
    ensures var w1 := CreateDirAll(w, dir + [DIR_INFO]).value;
      var rec := Reconciled(env, w1, dir, home, ExistingInfo(w, dir));
      ExistingInfo(CreateDirInfo(env, w, dir, home).1, dir) == Some(rec)
  {
    var w1 := CreateDirAll(w, dir + [DIR_INFO]).value;
    var rec := Reconciled(env, w1, dir, home, ExistingInfo(w, dir));
    ReconciledValid(env, w1, dir, home, ExistingInfo(w, dir));
    ProcessInfoOfValid(rec);
    CreateDirInfoStored(env, w, dir, home);
  }

  /**
   * The record the first run writes covers exactly the current names of the directory as
   * the second run sees them.
   */
  lemma FirstRunCovers(env: Env, w1: World, dir: Path, home: bool, existing: Option<Info>, body: Body)
    requires WF(w1) && Plain(dir) && dir in w1 && w1[dir].Dir?
    requires env.normalize(dir) == dir
    requires WF(w1[InfoPath(dir) := File(body)])
    ensures var rec := Reconciled(env, w1, dir, home, existing);
      var w2 := w1[InfoPath(dir) := File(body)];
      && rec.objects.Keys <= CurrentEntries(w2, dir)
      && DefaultInfo(env, w2, dir, home).objects.Keys * CurrentEntries(w2, dir) <= rec.objects.Keys
  {
    ListingUnchanged(env, w1, dir, home, body);
    var w2 := w1[InfoPath(dir) := File(body)];
    assert DefaultInfo(env, w2, dir, home) == DefaultInfo(env, w1, dir, home);
  }

  /** `create_dir_info` keeps a directory a directory. */
  lemma CreateDirInfoKeepsDir(env: Env, w: World, dir: Path, home: bool)
    requires IsDir(w, dir)
    ensures IsDir(CreateDirInfo(env, w, dir, home).1, dir)
  {
    var q := Locate(w, dir).value;
    LocateDirOfDir(w, dir);
    if FileName(dir) != Some(DIR_INFO) && CreateDirAll(w, dir + [DIR_INFO]).Ok? {
      var w1 := CreateDirAll(w, dir + [DIR_INFO]).value;
      CreateDirAllGrows(w, dir + [DIR_INFO]);
      LocateDirGrows(w, w1, dir);
      var rec := Reconciled(env, w1, dir, home, ExistingInfo(w, dir));
      if WriteInfo(w1, InfoPath(dir), rec).Ok? {
        RecordWriteKeepsDir(w1, dir, q, Doc(ToJson(rec)));
      }
    }
  }

  /** Writing a directory's record leaves the directory where it resolved. */
  lemma RecordWriteKeepsDir(w: World, dir: Path, q: Path, body: Body)
    requires LocateDir(w, dir) == Ok(q) && Write(w, InfoPath(dir), body).Ok?
    ensures LocateDir(Write(w, InfoPath(dir), body).value, dir) == Ok(q)
    ensures IsDir(Write(w, InfoPath(dir), body).value, dir)
  {
    var k := Locate(w, InfoPath(dir)).value;
    RecordLocation(w, dir, q);
    LocateDirFileUpdate(w, k, File(body), dir);
  }

  /**
   * Reconciliation is idempotent: run again on the world it produced, `create_dir_info`
   * succeeds and writes the same record, leaving the world unchanged. This holds for a
   * stored directory that `normalize_path` leaves as it is and whose default location has no
   * surrounding white space (otherwise the first rewrite trims it).
   */
  lemma CreateDirInfoIdempotent(env: Env, w: World, dir: Path, home: bool)
    requires WF(w) && Plain(dir) && dir in w && w[dir].Dir?
    requires env.normalize(dir) == dir
    requires FileName(dir) != Some(DIR_INFO)
    requires IsTrimmed(DefaultLocation(env, dir, home))
    requires CreateDirInfo(env, w, dir, home).0
    ensures CreateDirInfo(env, CreateDirInfo(env, w, dir, home).1, dir, home)
         == (true, CreateDirInfo(env, w, dir, home).1)
  {
    var rec := FirstRunStored(env, w, dir, home);
    FirstRunEntries(env, w, dir, home, rec);
    SecondRun(env, CreateDirInfo(env, w, dir, home).1, dir, home, rec);
  }

  /** A successful first run leaves `.dir_info` a directory holding the record it reads back. */
  lemma FirstRunStored(env: Env, w: World, dir: Path, home: bool) returns (rec: Info)
    requires WF(w) && Plain(dir) && dir in w && w[dir].Dir?
    requires FileName(dir) != Some(DIR_INFO)
    requires IsTrimmed(DefaultLocation(env, dir, home))
    requires CreateDirInfo(env, w, dir, home).0
    ensures var w2 := CreateDirInfo(env, w, dir, home).1;
      && WF(w2) && dir in w2 && w2[dir].Dir?
      && dir + [DIR_INFO] in w2 && w2[dir + [DIR_INFO]] == Dir
      && InfoPath(dir) in w2 && w2[InfoPath(dir)] == File(Doc(ToJson(rec)))
      && ExistingInfo(w2, dir) == Some(rec)
    ensures rec == Reconciled(env, w[dir + [DIR_INFO] := Dir], dir, home, ExistingInfo(w, dir))
  {
    var di := dir + [DIR_INFO];
    var ip := InfoPath(dir);
    InfoPathsPlain(dir);
    FirstRun(env, w, dir, home);
    FirstRunReadsBack(env, w, dir, home);
    var w1 := w[di := Dir];
    rec := Reconciled(env, w1, dir, home, ExistingInfo(w, dir));
    RecordWrites(w, dir, Doc(ToJson(rec)));
  }

  /** Creating `.dir_info` and writing the record leave the directory itself as it was. */
  lemma RecordWrites(w: World, dir: Path, body: Body)
    requires dir in w
    ensures var w2 := w[dir + [DIR_INFO] := Dir][InfoPath(dir) := File(body)];
      && dir in w2 && w2[dir] == w[dir]
      && dir + [DIR_INFO] in w2 && w2[dir + [DIR_INFO]] == Dir
      && InfoPath(dir) in w2 && w2[InfoPath(dir)] == File(body)
  {
    var di, ip := dir + [DIR_INFO], InfoPath(dir);
    assert |ip| == |dir| + 2 && |di| == |dir| + 1;
  }

  /** The record a first run writes lists exactly the entries a second run would keep. */
  lemma FirstRunEntries(env: Env, w: World, dir: Path, home: bool, rec: Info)
    requires WF(w) && Plain(dir) && dir in w && w[dir].Dir?
    requires env.normalize(dir) == dir
    requires FileName(dir) != Some(DIR_INFO)
    requires CreateDirInfo(env, w, dir, home).0
    requires rec == Reconciled(env, w[dir + [DIR_INFO] := Dir], dir, home, ExistingInfo(w, dir))
    ensures var w2 := CreateDirInfo(env, w, dir, home).1;
      && rec.objects.Keys <= CurrentEntries(w2, dir)
      && DefaultInfo(env, w2, dir, home).objects.Keys * CurrentEntries(w2, dir) <= rec.objects.Keys
  {
    var di := dir + [DIR_INFO];
    FirstRun(env, w, dir, home);
    FirstRunCovers(env, w[di := Dir], dir, home, ExistingInfo(w, dir), Doc(ToJson(rec)));
  }

  // ---------------------------------------------------------------------------
  // The recursive walk
  // ---------------------------------------------------------------------------

  /** One call of `create_dir_info` made by the walk: the directory, the home flag, the outcome. */
  datatype Visit = Visit(dir: Path, home: bool, ok: bool)

  /**
   * The outcome of a walk: the flag it returns, the world it leaves, the reconciliations it
   * made in order, and whether the fuel bound sufficed (`complete`).
   */
  datatype Walked = Walked(ok: bool, world: World, trace: seq<Visit>, complete: bool)

  predicate AllOk(trace: seq<Visit>) {
    forall i :: 0 <= i < |trace| ==> trace[i].ok
  }

  /** Every visit lies strictly below `dir` (or at it, when `orSelf`) and is not the home. */
  predicate VisitsBelow(dir: Path, trace: seq<Visit>, orSelf: bool) {
    forall i :: 0 <= i < |trace| ==>
      IsPrefix(dir, trace[i].dir) && (orSelf || |dir| < |trace[i].dir|)
  }

  /** One reconciliation step of the walk: the flag and the world after it. */
  type Step = (World, Path, bool) -> (bool, World)

  /** How the walk lists a directory: `fs::read_dir`, whose success also means "is a directory". */
  type Lister = (World, Path) -> Result<seq<string>, IoErr>

  /** The step the walk takes in every directory: `create_dir_info`. */
  function Reconcile(env: Env): Step {
    (w: World, d: Path, h: bool) => CreateDirInfo(env, w, d, h)
  }

  /**
   * `process_directory_recursive(dir, is_home)` with `step` for `create_dir_info` and `list`
   * for `fs::read_dir` (the model passes `Fs.ReadDir`, which succeeds exactly on a directory,
   * so `list(w, p).Ok?` is `path.is_dir()`): a `.dir_info` directory is skipped; otherwise the directory is reconciled (whether or not
   * its record exists) and, when that succeeded, every entry that is a directory is walked
   * in listing order, each as a non-home directory. The flag is the conjunction of all
   * outcomes: a failure below does not stop the remaining siblings. `fuel` bounds the depth
   * of the recursion.
   */
  function Walk(step: Step, list: Lister, w: World, dir: Path, home: bool, fuel: nat): (r: Walked)
    ensures r.ok ==> r.complete
    decreases fuel, 0, 0
  {
    if FileName(dir) == Some(DIR_INFO) then Walked(true, w, [], true)
    else if fuel == 0 then Walked(false, w, [], false)
    else
      var (ok, w1) := step(w, dir, home);
      var here := [Visit(dir, home, ok)];
      if !ok then Walked(false, w1, here, true)
      else
        match list(w1, dir)
        case Err(_) => Walked(true, w1, here, true)
        case Ok(names) =>
          var rest := WalkChildren(step, list, w1, dir, names, fuel - 1);
          Walked(rest.ok, rest.world, here + rest.trace, rest.complete)
  }

  /** The loop over the listing of `dir`: entries that are not directories are passed over. */
  function WalkChildren(step: Step, list: Lister, w: World, dir: Path, names: seq<string>, fuel: nat): (r: Walked)
    ensures r.ok ==> r.complete
    decreases fuel, 1, |names|
  {
    if names == [] then Walked(true, w, [], true)
    else if list(w, dir + [names[0]]).Ok? then
      var first := Walk(step, list, w, dir + [names[0]], false, fuel);
      var rest := WalkChildren(step, list, first.world, dir, names[1..], fuel);
      Walked(first.ok && rest.ok, rest.world, first.trace + rest.trace, first.complete && rest.complete)
    else WalkChildren(step, list, w, dir, names[1..], fuel)
  }

  /**
   * The flag of a walk is true exactly when the fuel sufficed and every reconciliation it
   * made succeeded.
   */
  lemma {:induction false} WalkOkIff(step: Step, list: Lister, w: World, dir: Path, home: bool, fuel: nat)
    ensures Walk(step, list, w, dir, home, fuel).ok
        <==> Walk(step, list, w, dir, home, fuel).complete && AllOk(Walk(step, list, w, dir, home, fuel).trace)
    decreases fuel, 0, 0
  {
    var r := Walk(step, list, w, dir, home, fuel);
    if FileName(dir) == Some(DIR_INFO) || fuel == 0 {
      assert r.trace == [];
    } else {
      var c := step(w, dir, home);
      if c.0 && list(c.1, dir).Ok? {
        var here := [Visit(dir, home, true)];
        var names := list(c.1, dir).value;
        var rest := WalkChildren(step, list, c.1, dir, names, fuel - 1);
        WalkDescends(step, list, w, dir, home, fuel);
        assert r == Walked(rest.ok, rest.world, here + rest.trace, rest.complete);
        WalkChildrenOkIff(step, list, c.1, dir, names, fuel - 1);
        AllOkSingle(here[0]);
        AllOkAppend(here, rest.trace);
      } else {
        WalkStops(step, list, w, dir, home, fuel);
        assert r == Walked(c.0, c.1, [Visit(dir, home, c.0)], true);
        AllOkSingle(Visit(dir, home, c.0));
      }
    }
  }

  lemma {:induction false} WalkChildrenOkIff(step: Step, list: Lister, w: World, dir: Path, names: seq<string>, fuel: nat)
    ensures WalkChildren(step, list, w, dir, names, fuel).ok
        <==> WalkChildren(step, list, w, dir, names, fuel).complete && AllOk(WalkChildren(step, list, w, dir, names, fuel).trace)
    decreases fuel, 1, |names|
  {
    if names != [] {
      if list(w, dir + [names[0]]).Ok? {
        var first := Walk(step, list, w, dir + [names[0]], false, fuel);
        WalkOkIff(step, list, w, dir + [names[0]], false, fuel);
        WalkChildrenOkIff(step, list, first.world, dir, names[1..], fuel);
        AllOkAppend(first.trace, WalkChildren(step, list, first.world, dir, names[1..], fuel).trace);
      } else {
        WalkChildrenOkIff(step, list, w, dir, names[1..], fuel);
      }
    }
  }

  lemma AllOkSingle(v: Visit)
    ensures AllOk([v]) <==> v.ok
  {
    assert [v][0] == v;
  }

  lemma AllOkAppend(a: seq<Visit>, b: seq<Visit>)
    ensures AllOk(a + b) <==> AllOk(a) && AllOk(b)
  {
    if AllOk(a) && AllOk(b) {
      forall i | 0 <= i < |a + b| ensures (a + b)[i].ok {
        if i >= |a| { assert (a + b)[i] == b[i - |a|]; }
      }
    }
    if AllOk(a + b) {
      assert forall i :: 0 <= i < |a| ==> (a + b)[i] == a[i];
      assert forall i :: 0 <= i < |b| ==> (a + b)[|a| + i] == b[i];
    }
  }

  /** No visit after the first is made with the home flag. */
  predicate HomeOnlyFirst(trace: seq<Visit>) {
    forall i :: 1 <= i < |trace| ==> !trace[i].home
  }

  /** No visit of a trace is made with the home flag. */
  predicate NoHome(trace: seq<Visit>) {
    forall i :: 0 <= i < |trace| ==> !trace[i].home
  }

  lemma NoHomeAppend(a: seq<Visit>, b: seq<Visit>)
    requires NoHome(a) && NoHome(b)
    ensures NoHome(a + b)
  {
    forall i | 0 <= i < |a + b| ensures !(a + b)[i].home {
      if i >= |a| { assert (a + b)[i] == b[i - |a|]; }
    }
  }

  lemma HomeOnlyFirstCons(v: Visit, t: seq<Visit>)
    requires NoHome(t)
    ensures HomeOnlyFirst([v] + t) && |[v] + t| > 0 && ([v] + t)[0] == v
  {
    forall i | 1 <= i < |[v] + t| ensures !([v] + t)[i].home {
      assert ([v] + t)[i] == t[i - 1];
    }
  }

  lemma PrefixTrans(a: Path, b: Path, c: Path)
    requires IsPrefix(a, b) && IsPrefix(b, c)
    ensures IsPrefix(a, c)
  {
    assert c[..|a|] == c[..|b|][..|a|];
  }

  lemma VisitsBelowSelf(dir: Path, v: Visit)
    requires v.dir == dir
    ensures VisitsBelow(dir, [v], true)
  {
    assert [v][0] == v;
    assert IsPrefix(dir, dir);
  }

  lemma VisitsBelowWeaken(dir: Path, t: seq<Visit>)
    requires VisitsBelow(dir, t, false)
    ensures VisitsBelow(dir, t, true)
  {
  }

  lemma VisitsBelowAppend(dir: Path, a: seq<Visit>, b: seq<Visit>, orSelf: bool)
    requires VisitsBelow(dir, a, orSelf) && VisitsBelow(dir, b, orSelf)
    ensures VisitsBelow(dir, a + b, orSelf)
  {
    forall i | 0 <= i < |a + b|
      ensures IsPrefix(dir, (a + b)[i].dir) && (orSelf || |dir| < |(a + b)[i].dir|)
    {
      if i >= |a| { assert (a + b)[i] == b[i - |a|]; }
    }
  }

  /**
   * The first visit of a walk: a `.dir_info` directory is not visited at all, and otherwise
   * (with fuel left) the directory itself comes first with the given home flag. A directory
   * whose reconciliation fails is the only visit: the walk does not descend into it.
   */
  lemma WalkFirst(step: Step, list: Lister, w: World, dir: Path, home: bool, fuel: nat)
    ensures var r := Walk(step, list, w, dir, home, fuel);
      && (FileName(dir) == Some(DIR_INFO) ==> r == Walked(true, w, [], true))
      && (FileName(dir) != Some(DIR_INFO) && fuel > 0 ==>
            |r.trace| >= 1 && r.trace[0] == Visit(dir, home, step(w, dir, home).0))
      && (FileName(dir) != Some(DIR_INFO) && fuel > 0 && !step(w, dir, home).0 ==>
            r.trace == [Visit(dir, home, false)] && !r.ok)
  {
    if FileName(dir) != Some(DIR_INFO) && fuel > 0 {
      var c := step(w, dir, home);
      var here := [Visit(dir, home, c.0)];
      if c.0 && list(c.1, dir).Ok? {
        var rest := WalkChildren(step, list, c.1, dir, list(c.1, dir).value, fuel - 1);
        assert (here + rest.trace)[0] == here[0];
      }
    }
  }

  /** A walk goes only to the directory itself and directories below it. */
  lemma {:induction false} WalkBelow(step: Step, list: Lister, w: World, dir: Path, home: bool, fuel: nat)
    ensures VisitsBelow(dir, Walk(step, list, w, dir, home, fuel).trace, true)
    decreases fuel, 0, 0
  {
    var r := Walk(step, list, w, dir, home, fuel);
    if FileName(dir) == Some(DIR_INFO) || fuel == 0 {
      assert r.trace == [];
    } else {
      var c := step(w, dir, home);
      VisitsBelowSelf(dir, Visit(dir, home, c.0));
      if c.0 && list(c.1, dir).Ok? {
        var here := [Visit(dir, home, true)];
        var names := list(c.1, dir).value;
        var rest := WalkChildren(step, list, c.1, dir, names, fuel - 1);
        WalkDescends(step, list, w, dir, home, fuel);
        assert r.trace == here + rest.trace;
        WalkChildrenBelow(step, list, c.1, dir, names, fuel - 1);
        VisitsBelowWeaken(dir, rest.trace);
        VisitsBelowAppend(dir, here, rest.trace, true);
      } else {
        WalkStops(step, list, w, dir, home, fuel);
        assert r.trace == [Visit(dir, home, c.0)];
      }
    }
  }

  lemma {:induction false} WalkChildrenBelow(step: Step, list: Lister, w: World, dir: Path, names: seq<string>, fuel: nat)
    ensures VisitsBelow(dir, WalkChildren(step, list, w, dir, names, fuel).trace, false)
    decreases fuel, 1, |names|
  {
    if names != [] {
      if list(w, dir + [names[0]]).Ok? {
        var p := dir + [names[0]];
        var first := Walk(step, list, w, p, false, fuel);
        var rest := WalkChildren(step, list, first.world, dir, names[1..], fuel);
        WalkBelow(step, list, w, p, false, fuel);
        WalkChildrenBelow(step, list, first.world, dir, names[1..], fuel);
        assert IsPrefix(dir, p);
        forall i | 0 <= i < |first.trace|
          ensures IsPrefix(dir, first.trace[i].dir) && |dir| < |first.trace[i].dir|
        {
          PrefixTrans(dir, p, first.trace[i].dir);
        }
        VisitsBelowAppend(dir, first.trace, rest.trace, false);
      } else {
        WalkChildrenBelow(step, list, w, dir, names[1..], fuel);
      }
    }
  }

  /** Every visit of a walk after the first is made as a non-home directory. */
  lemma {:induction false} WalkHome(step: Step, list: Lister, w: World, dir: Path, home: bool, fuel: nat)
    ensures var r := Walk(step, list, w, dir, home, fuel);
      HomeOnlyFirst(r.trace) && (|r.trace| > 0 ==> r.trace[0].home == home)
    decreases fuel, 0, 0
  {
    var r := Walk(step, list, w, dir, home, fuel);
    if FileName(dir) == Some(DIR_INFO) || fuel == 0 {
      assert r.trace == [];
    } else {
      var c := step(w, dir, home);
      if c.0 && list(c.1, dir).Ok? {
        var names := list(c.1, dir).value;
        var rest := WalkChildren(step, list, c.1, dir, names, fuel - 1);
        WalkDescends(step, list, w, dir, home, fuel);
        assert r.trace == [Visit(dir, home, true)] + rest.trace;
        WalkChildrenNoHome(step, list, c.1, dir, names, fuel - 1);
        HomeOnlyFirstCons(Visit(dir, home, true), rest.trace);
      } else {
        WalkStops(step, list, w, dir, home, fuel);
        assert r.trace == [Visit(dir, home, c.0)];
        HomeOnlyFirstCons(Visit(dir, home, c.0), []);
      }
    }
  }

  lemma {:induction false} WalkChildrenNoHome(step: Step, list: Lister, w: World, dir: Path, names: seq<string>, fuel: nat)
    ensures NoHome(WalkChildren(step, list, w, dir, names, fuel).trace)
    decreases fuel, 1, |names|
  {
    if names != [] {
      if list(w, dir + [names[0]]).Ok? {
        var p := dir + [names[0]];
        var first := Walk(step, list, w, p, false, fuel);
        var rest := WalkChildren(step, list, first.world, dir, names[1..], fuel);
        WalkHome(step, list, w, p, false, fuel);
        WalkChildrenNoHome(step, list, first.world, dir, names[1..], fuel);
        assert NoHome(first.trace) by {
          forall i | 0 <= i < |first.trace| ensures !first.trace[i].home {
            if i == 0 { assert first.trace[0].home == false; }
          }
        }
        NoHomeAppend(first.trace, rest.trace);
      } else {
        WalkChildrenNoHome(step, list, w, dir, names[1..], fuel);
      }
    }
  }

  /** A walk whose reconciliation succeeds and whose listing reads goes on to the entries. */
  lemma WalkDescends(step: Step, list: Lister, w: World, dir: Path, home: bool, fuel: nat)
    requires FileName(dir) != Some(DIR_INFO) && fuel > 0
    requires step(w, dir, home).0 && list(step(w, dir, home).1, dir).Ok?
    ensures var c := step(w, dir, home);
      var rest := WalkChildren(step, list, c.1, dir, list(c.1, dir).value, fuel - 1);
      Walk(step, list, w, dir, home, fuel) == Walked(rest.ok, rest.world, [Visit(dir, home, true)] + rest.trace, rest.complete)
  {
  }

  /** Otherwise the walk visits the directory alone. */
  lemma WalkStops(step: Step, list: Lister, w: World, dir: Path, home: bool, fuel: nat)
    requires FileName(dir) != Some(DIR_INFO) && fuel > 0
    requires !(step(w, dir, home).0 && list(step(w, dir, home).1, dir).Ok?)
    ensures var c := step(w, dir, home);
      Walk(step, list, w, dir, home, fuel) == Walked(c.0, c.1, [Visit(dir, home, c.0)], true)
  {
  }

  predicate Visited(trace: seq<Visit>, d: Path) {
    exists i :: 0 <= i < |trace| && trace[i].dir == d
  }

  /** The world in which the loop over `names` reaches `names[k]`. */
  function WorldAt(step: Step, list: Lister, w: World, dir: Path, names: seq<string>, fuel: nat, k: nat): (r: World)
    requires k <= |names|
    ensures k == 0 ==> r == w
    decreases k
  {
    if k == 0 then w
    else if list(w, dir + [names[0]]).Ok? then
      WorldAt(step, list, Walk(step, list, w, dir + [names[0]], false, fuel).world, dir, names[1..], fuel, k - 1)
    else WorldAt(step, list, w, dir, names[1..], fuel, k - 1)
  }

  /**
   * Every listed entry that is a directory when the loop reaches it, other than
   * `.dir_info`, is visited, whatever happened to the entries before it.
   */
  lemma {:induction false} SiblingsVisited(step: Step, list: Lister, w: World, dir: Path, names: seq<string>, fuel: nat, k: nat)
    requires k < |names| && fuel > 0
    requires names[k] != DIR_INFO && names[k] != ".."
    requires list(WorldAt(step, list, w, dir, names, fuel, k), dir + [names[k]]).Ok?
    ensures Visited(WalkChildren(step, list, w, dir, names, fuel).trace, dir + [names[k]])
    decreases k
  {
    var r := WalkChildren(step, list, w, dir, names, fuel);
    if k == 0 {
      var p := dir + [names[0]];
      var first := Walk(step, list, w, p, false, fuel);
      WalkFirst(step, list, w, p, false, fuel);
      var rest := WalkChildren(step, list, first.world, dir, names[1..], fuel);
      assert r.trace == first.trace + rest.trace;
      assert r.trace[0] == first.trace[0];
    } else if list(w, dir + [names[0]]).Ok? {
      var first := Walk(step, list, w, dir + [names[0]], false, fuel);
      assert names[1..][k - 1] == names[k];
      assert WorldAt(step, list, w, dir, names, fuel, k) == WorldAt(step, list, first.world, dir, names[1..], fuel, k - 1);
      SiblingsVisited(step, list, first.world, dir, names[1..], fuel, k - 1);
      var rest := WalkChildren(step, list, first.world, dir, names[1..], fuel);
      var i :| 0 <= i < |rest.trace| && rest.trace[i].dir == dir + [names[k]];
      assert r.trace == first.trace + rest.trace;
      assert r.trace[|first.trace| + i] == rest.trace[i];
    } else {
      assert names[1..][k - 1] == names[k];
      assert WorldAt(step, list, w, dir, names, fuel, k) == WorldAt(step, list, w, dir, names[1..], fuel, k - 1);
      SiblingsVisited(step, list, w, dir, names[1..], fuel, k - 1);
    }
  }

  /**
   * `validate_or_create_sekai(sekai_path, home_check)`: a path that does not exist or is not
   * a directory fails at once; with `home_check` only the root is reconciled (as the home);
   * otherwise the whole tree is walked from the root as the home.
   */
  function ValidateOrCreateSekai(env: Env, w: World, sekaiPath: Path, homeCheck: bool, fuel: nat): (r: (bool, World))
    ensures !IsDir(w, sekaiPath) ==> r == (false, w)
  {
    if !Exists(w, sekaiPath) then (false, w)
    else if !IsDir(w, sekaiPath) then (false, w)
    else if homeCheck then CreateDirInfo(env, w, sekaiPath, true)
    else
      var walked := Walk(Reconcile(env), ReadDir, w, sekaiPath, true, fuel);
      (walked.ok, walked.world)
  }

  /**
   * A sekai validates only if its root is a directory, and the home check reconciles the
   * root alone, as the home.
   */
  lemma ValidateOrCreateSekaiHome(env: Env, w: World, sekaiPath: Path, homeCheck: bool, fuel: nat)
    ensures var r := ValidateOrCreateSekai(env, w, sekaiPath, homeCheck, fuel);
      && (r.0 ==> IsDir(w, sekaiPath))
      && (IsDir(w, sekaiPath) && homeCheck ==> r == CreateDirInfo(env, w, sekaiPath, true))
  {
  }

  /**
   * The full check succeeds exactly when the walk completes with every reconciliation
   * succeeding, the root reconciled first as the home and every other directory as a
   * non-home one, all of them at or below the root.
   */
  lemma ValidateOrCreateSekaiWalk(env: Env, w: World, sekaiPath: Path, fuel: nat)
    requires IsDir(w, sekaiPath)
    ensures var r := ValidateOrCreateSekai(env, w, sekaiPath, false, fuel);
      var walked := Walk(Reconcile(env), ReadDir, w, sekaiPath, true, fuel);
      && r.1 == walked.world
      && (r.0 <==> walked.complete && AllOk(walked.trace))
      && HomeOnlyFirst(walked.trace)
      && VisitsBelow(sekaiPath, walked.trace, true)
      && (FileName(sekaiPath) != Some(DIR_INFO) && fuel > 0 ==>
            walked.trace[0] == Visit(sekaiPath, true, CreateDirInfo(env, w, sekaiPath, true).0))
  {
    WalkOkIff(Reconcile(env), ReadDir, w, sekaiPath, true, fuel);
    WalkBelow(Reconcile(env), ReadDir, w, sekaiPath, true, fuel);
    WalkHome(Reconcile(env), ReadDir, w, sekaiPath, true, fuel);
    WalkFirst(Reconcile(env), ReadDir, w, sekaiPath, true, fuel);
  }
}
