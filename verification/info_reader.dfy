/**
 * The per-directory metadata record `.dir_info/info.json`: its JSON shape, the
 * validation and normalisation applied when it is read, the defaults for a directory that
 * has none, and the object-level edits the commands make to it.
 */
module InfoReader {
  import opened Wrappers
  import opened Text
  import opened Paths
  import opened Json
  import opened Fs
  import opened Env

  /** The properties of one object (`ObjectInfo`, a flattened map). */
  type Bag = map<string, Value>

  datatype Info = Info(location: string, about: string, objects: map<string, Bag>)

  /**
   * `InfoError`. The messages carried by the source's variants are not modelled: the
   * validation message depends on the iteration order of a `HashMap`.
   */
  datatype InfoError =
    | NotFound
    | ReadError(io: IoErr)
    | ParseError
    | ValidationError

  const DIR_INFO := ".dir_info"
  const INFO_JSON := "info.json"
  const DEFAULT_PERMISSIONS := "00"

  /** `<dir>/.dir_info/info.json` */
  function InfoPath(dir: Path): Path {
    dir + [DIR_INFO, INFO_JSON]
  }

  /**
   * How an `InfoError` for the record at `infoPath` displays. The detail text of a JSON or
   * validation failure is not modelled.
   */
  function Describe(e: InfoError, infoPath: Path): string {
    match e
    case NotFound => "Info file not found at " + Display(infoPath)
    case ReadError(io) => "Failed to read info file: " + io.Message()
    case ParseError => "Failed to parse info file: "
    case ValidationError => "Validation error: "
  }

  /** `ObjectInfo::with_locked` */
  function WithLocked(locked: string): (b: Bag)
    ensures b.Keys == {"locked"} && b["locked"] == Str(locked)
  {
    map["locked" := Str(locked)]
  }

  // ---------------------------------------------------------------------------
  // JSON shape (serde with `deny_unknown_fields`)
  // ---------------------------------------------------------------------------

  function ToJson(i: Info): (v: Value)
    ensures v.Obj? && v.fields.Keys == {"location", "about", "objects"}
  {
    Obj(map["location" := Str(i.location), "about" := Str(i.about),
            "objects" := Obj(map n | n in i.objects :: Obj(i.objects[n]))])
  }

  /** The record a document describes: exactly the three fields, each of the right shape. */
  function FromJson(v: Value): (r: Option<Info>)
    ensures r.Some? <==>
      && v.Obj? && v.fields.Keys == {"location", "about", "objects"}
      && v.fields["location"].Str? && v.fields["about"].Str? && v.fields["objects"].Obj?
      && (forall n :: n in v.fields["objects"].fields ==> v.fields["objects"].fields[n].Obj?)
  {
    if v.Obj? && v.fields.Keys == {"location", "about", "objects"}
       && v.fields["location"].Str? && v.fields["about"].Str? && v.fields["objects"].Obj?
       && (forall n :: n in v.fields["objects"].fields ==> v.fields["objects"].fields[n].Obj?)
    then
      var objs := v.fields["objects"].fields;
      Some(Info(v.fields["location"].s, v.fields["about"].s, map n | n in objs :: objs[n].fields))
    else None
  }

  /** A record survives serialisation and parsing unchanged. */
  lemma FromToJson(i: Info)
    ensures FromJson(ToJson(i)) == Some(i)
  {
    var objs := ToJson(i).fields["objects"].fields;
    assert (map n | n in objs :: objs[n].fields) == i.objects;
  }

  /** A document that parses is the serialisation of what it parses to. */
  lemma ToFromJson(v: Value)
    requires FromJson(v).Some?
    ensures ToJson(FromJson(v).value) == v
  {
    var i := FromJson(v).value;
    var objs := v.fields["objects"].fields;
    assert (map n | n in i.objects :: Obj(i.objects[n])) == objs;
    assert ToJson(i).fields == v.fields;
  }

  // ---------------------------------------------------------------------------
  // Validation and normalisation (`read_validate_info`)
  // ---------------------------------------------------------------------------

  function TrimValue(v: Value): (r: Value)
    ensures v.Str? <==> r.Str?
    ensures v.Str? ==> r.s == Trim(v.s)
    ensures !v.Str? ==> r == v
  {
    if v.Str? then Str(Trim(v.s)) else v
  }

  /** Every string property trimmed, every other property unchanged. */
  function TrimStrings(b: Bag): (r: Bag)
    ensures r.Keys == b.Keys
    ensures forall k :: k in b ==> r[k] == TrimValue(b[k])
  {
    map k | k in b :: TrimValue(b[k])
  }

  /** `s.chars().nth(i)` */
  function Nth(s: string, i: nat): (r: Option<char>)
    ensures r.Some? <==> i < |s|
    ensures r.Some? ==> r.value == s[i]
  {
    if i < |s| then Some(s[i]) else None
  }

  /**
   * What reading does to one object's properties. A string `locked` must be a two-bit
   * string; when its second bit is `0` the properties are kept exactly as written (not
   * trimmed); when it is `1` the object must carry `decrypt_me`, `obj_salt` and
   * `compare_me`. A `locked` that is missing or not a string is not checked at all.
   * The branch for a `locked` without a second character is kept as the source writes it.
   */
  function NormalizeBag(b: Bag): (r: Option<Bag>)
    ensures !LockedStr(b) ==> r.Some?
    ensures r.Some? ==> r.value.Keys <= b.Keys
  {
    if "locked" in b && b["locked"].Str? then
      var s := b["locked"].s;
      if !IsBitPair(s) then None
      else match Nth(s, 1)
        case Some(c) =>
          if c != '1' then Some(b)
          else if "decrypt_me" !in b || "obj_salt" !in b || "compare_me" !in b then None
          else Some(TrimStrings(b))
        case None => Some(TrimStrings(b - {"decrypt_me"}))
    else Some(TrimStrings(b))
  }

  /** A string `locked` value of the form the reader accepts, and the second bit set. */
  predicate LockedStr(b: Bag) {
    "locked" in b && b["locked"].Str?
  }

  predicate SecondBitSet(s: string) {
    |s| >= 2 && s[1] == '1'
  }

  /** When the reader accepts an object, and what it turns it into. */
  lemma NormalizeBagSpec(b: Bag)
    ensures NormalizeBag(b).Some? <==>
      (LockedStr(b) ==>
        IsBitPair(b["locked"].s)
        && (SecondBitSet(b["locked"].s) ==> "decrypt_me" in b && "obj_salt" in b && "compare_me" in b))
    ensures NormalizeBag(b).Some? ==>
      NormalizeBag(b).value == (if LockedStr(b) && !SecondBitSet(b["locked"].s) then b else TrimStrings(b))
  {
    if LockedStr(b) {
      BitPairLength(b["locked"].s);
    }
  }

  /**
   * The removal of `decrypt_me` for an unlocked object never happens: a two-bit string
   * always has a second character, so an object whose second bit is `0` keeps a
   * `decrypt_me` property, untrimmed, through every read.
   */
  lemma StrayDecryptMeSurvives(b: Bag)
    requires LockedStr(b) && b["locked"].s == "00"
    ensures NormalizeBag(b) == Some(b)
    ensures "decrypt_me" in b ==> "decrypt_me" in NormalizeBag(b).value
  {
    BitPairLength(b["locked"].s);
  }

  lemma BinaryTrimmed(s: string)
    requires |s| == 2 && (s[0] == '0' || s[0] == '1') && (s[1] == '0' || s[1] == '1')
    ensures IsTrimmed(s)
  {
  }

  lemma TrimStringsIdempotent(b: Bag)
    ensures TrimStrings(TrimStrings(b)) == TrimStrings(b)
  {
    var r := TrimStrings(b);
    forall k | k in b ensures TrimValue(r[k]) == r[k] {
      if b[k].Str? {
        TrimIdempotent(b[k].s);
      }
    }
  }

  /** Normalising an object twice is normalising it once. */
  lemma NormalizeBagIdempotent(b: Bag)
    requires NormalizeBag(b).Some?
    ensures NormalizeBag(NormalizeBag(b).value) == NormalizeBag(b)
  {
    NormalizeBagSpec(b);
    var r := NormalizeBag(b).value;
    NormalizeBagSpec(r);
    if LockedStr(b) && !SecondBitSet(b["locked"].s) {
      assert r == b;
    } else {
      assert r == TrimStrings(b);
      TrimStringsIdempotent(b);
      if LockedStr(b) {
        var s := b["locked"].s;
        BitPairLength(s);
        BinaryTrimmed(s);
        TrimOfTrimmed(s);
        assert r["locked"] == b["locked"];
      } else {
        assert !LockedStr(r);
      }
    }
  }

  /** A record as `read_validate_info` returns it. */
  predicate Valid(i: Info) {
    && i.location != [] && IsTrimmed(i.location)
    && i.about != [] && IsTrimmed(i.about)
    && forall n :: n in i.objects ==> NormalizeBag(i.objects[n]) == Some(i.objects[n])
  }

  /**
   * The checks and rewrites of `read_validate_info` after parsing: both text fields
   * trimmed and required non-empty, every object normalised.
   */
  function ProcessInfo(i: Info): (r: Result<Info, InfoError>)
    ensures r.Ok? <==>
      Trim(i.location) != [] && Trim(i.about) != []
      && forall n :: n in i.objects ==> NormalizeBag(i.objects[n]).Some?
    ensures r.Err? ==> r.error == ValidationError
    ensures r.Ok? ==>
      && r.value.location == Trim(i.location) && r.value.about == Trim(i.about)
      && r.value.objects.Keys == i.objects.Keys
      && forall n :: n in i.objects ==> Some(r.value.objects[n]) == NormalizeBag(i.objects[n])
  {
    var loc := Trim(i.location);
    var about := Trim(i.about);
    if exists n :: n in i.objects && NormalizeBag(i.objects[n]).None? then Err(ValidationError)
    else if loc == [] || about == [] then Err(ValidationError)
    else Ok(Info(loc, about, map n | n in i.objects :: NormalizeBag(i.objects[n]).value))
  }

  /** Every record the reader returns is valid. */
  lemma ProcessInfoValid(i: Info)
    requires ProcessInfo(i).Ok?
    ensures Valid(ProcessInfo(i).value)
  {
    var r := ProcessInfo(i).value;
    TrimIsTrimmed(i.location);
    TrimIsTrimmed(i.about);
    forall n | n in r.objects ensures NormalizeBag(r.objects[n]) == Some(r.objects[n]) {
      NormalizeBagIdempotent(i.objects[n]);
    }
  }

  /** A valid record passes the reader's checks unchanged. */
  lemma ProcessInfoOfValid(i: Info)
    requires Valid(i)
    ensures ProcessInfo(i) == Ok(i)
  {
    TrimOfTrimmed(i.location);
    TrimOfTrimmed(i.about);
    assert (map n | n in i.objects :: NormalizeBag(i.objects[n]).value) == i.objects;
  }

  /** Reading is idempotent: validating a record the reader produced gives it back. */
  lemma ProcessInfoIdempotent(i: Info)
    requires ProcessInfo(i).Ok?
    ensures ProcessInfo(ProcessInfo(i).value) == ProcessInfo(i)
  {
    ProcessInfoValid(i);
    ProcessInfoOfValid(ProcessInfo(i).value);
  }

  /** `read_validate_info(info_path)` */
  function ReadValidateInfo(w: World, infoPath: Path): (r: Result<Info, InfoError>)
    ensures !Exists(w, infoPath) <==> r == Err(InfoError.NotFound)
    ensures r.Ok? ==> Valid(r.value)
    ensures r.Ok? ==> exists v :: Read(w, infoPath) == Ok(Doc(v)) && FromJson(v).Some?
                                 && ProcessInfo(FromJson(v).value) == r
  {
    if !Exists(w, infoPath) then Err(InfoError.NotFound)
    else match Read(w, infoPath)
      case Err(e) => Err(ReadError(e))
      case Ok(Doc(v)) =>
        (match FromJson(v)
         case None => Err(ParseError)
         case Some(i) =>
           var r := ProcessInfo(i);
           if r.Ok? then ProcessInfoValid(i); r else r)
      case Ok(_) => Err(ParseError)
  }

  /** `fs::write` of the serialised record; an I/O failure surfaces as a read error. */
  function WriteInfo(w: World, infoPath: Path, i: Info): (r: Result<World, InfoError>)
    ensures r.Ok? <==> Write(w, infoPath, Doc(ToJson(i))).Ok?
    ensures r.Ok? ==> r.value == Write(w, infoPath, Doc(ToJson(i))).value
  {
    match Write(w, infoPath, Doc(ToJson(i)))
    case Ok(w') => Ok(w')
    case Err(e) => Err(ReadError(e))
  }

  /** A directory's record resolves to the two components below wherever the directory resolves. */
  lemma RecordLocation(w: World, p: Path, q: Path)
    requires LocateDir(w, p) == Ok(q) && Locate(w, InfoPath(p)).Ok?
    ensures Locate(w, InfoPath(p)).value == q + [DIR_INFO, INFO_JSON]
  {
    var ip := InfoPath(p);
    assert ip[..|ip| - 1] == p + [DIR_INFO];
    assert (p + [DIR_INFO])[..|p|] == p;
  }

  /** Replacing or adding a regular file leaves every resolved directory path as it was. */
  lemma {:induction false} LocateDirFileUpdate(w: World, q: Path, n: Node, p: Path)
    requires q !in w || w[q].File?
    requires n.File?
    requires LocateDir(w, p).Ok?
    ensures LocateDir(w[q := n], p) == LocateDir(w, p)
    decreases |p|
  {
    if p != [] {
      LocateDirFileUpdate(w, q, n, p[..|p| - 1]);
    }
  }

  /** After a successful write the path holds exactly the document written. */
  lemma WriteThenRead(w: World, p: Path, body: Body)
    requires Write(w, p, body).Ok?
    ensures Read(Write(w, p, body).value, p) == Ok(body)
    ensures Exists(Write(w, p, body).value, p)
  {
    var w' := Write(w, p, body).value;
    var q := Locate(w, p).value;
    assert q !in w || w[q].File?;
    if p == [] {
      LocateDirFileUpdate(w, q, File(body), []);
    } else {
      LocateDirFileUpdate(w, q, File(body), p[..|p| - 1]);
    }
    assert Locate(w', p) == Ok(q);
  }

  /** Reading a record back after writing it gives what the reader makes of the record. */
  lemma ReadAfterWrite(w: World, infoPath: Path, i: Info)
    requires WriteInfo(w, infoPath, i).Ok?
    ensures ReadValidateInfo(WriteInfo(w, infoPath, i).value, infoPath) == ProcessInfo(i)
  {
    WriteThenRead(w, infoPath, Doc(ToJson(i)));
    FromToJson(i);
  }

  /** The stored document after writing a record parses to that record. */
  lemma WriteInfoStored(w: World, infoPath: Path, i: Info)
    requires WriteInfo(w, infoPath, i).Ok?
    ensures Read(WriteInfo(w, infoPath, i).value, infoPath) == Ok(Doc(ToJson(i)))
    ensures FromJson(ToJson(i)) == Some(i)
  {
    WriteThenRead(w, infoPath, Doc(ToJson(i)));
    FromToJson(i);
  }

  /** A valid record written is read back unchanged. */
  lemma ValidRoundTrip(w: World, infoPath: Path, i: Info)
    requires Valid(i) && WriteInfo(w, infoPath, i).Ok?
    ensures ReadValidateInfo(WriteInfo(w, infoPath, i).value, infoPath) == Ok(i)
  {
    ReadAfterWrite(w, infoPath, i);
    ProcessInfoOfValid(i);
  }

  // ---------------------------------------------------------------------------
  // Defaults
  // ---------------------------------------------------------------------------

  /** `Info::default_location`: `HOME` for the world root, else the path relative to it. */
  function DefaultLocation(env: Env, dir: Path, home: bool): (r: string)
    ensures home ==> r == "HOME"
    ensures !home ==> r == RelativeDisplay(env.normalize(dir), env.worldDir)
  {
    if home then "HOME" else RelativeDisplay(env.normalize(dir), env.worldDir)
  }

  function DefaultAbout(env: Env, dir: Path, home: bool): (r: string)
    ensures r == "You are in '" + DefaultLocation(env, dir, home) + "'. Look around and explore!"
  {
    "You are in '" + DefaultLocation(env, dir, home) + "'. Look around and explore!"
  }

  /** `Info::default_objects`: every entry but `.dir_info`, unlocked. */
  function DefaultObjects(w: World, path: Path): (r: map<string, Bag>)
    ensures forall n :: n in r <==> IsDir(w, path) && n in ReadDir(w, path).value && n != DIR_INFO
    ensures forall n :: n in r ==> r[n] == WithLocked(DEFAULT_PERMISSIONS)
  {
    match ReadDir(w, path)
    case Ok(names) => map n | n in names && n != DIR_INFO :: WithLocked(DEFAULT_PERMISSIONS)
    case Err(_) => map[]
  }

  /** `Info::default_for_path` */
  function DefaultInfo(env: Env, w: World, dir: Path, home: bool): (r: Info)
    ensures r.location == DefaultLocation(env, dir, home)
    ensures r.about == DefaultAbout(env, dir, home)
    ensures r.objects == DefaultObjects(w, env.normalize(dir))
  {
    Info(DefaultLocation(env, dir, home), DefaultAbout(env, dir, home),
         DefaultObjects(w, env.normalize(dir)))
  }

  /** The default `about` text starts and ends with a printable character. */
  lemma DefaultAboutTrimmed(env: Env, dir: Path, home: bool)
    ensures DefaultAbout(env, dir, home) != [] && IsTrimmed(DefaultAbout(env, dir, home))
  {
    var a := DefaultAbout(env, dir, home);
    assert a[0] == 'Y';
    assert a[|a| - 1] == '!';
  }

  /** An unlocked default object passes the reader unchanged. */
  lemma DefaultBagNormal()
    ensures NormalizeBag(WithLocked(DEFAULT_PERMISSIONS)) == Some(WithLocked(DEFAULT_PERMISSIONS))
  {
    StrayDecryptMeSurvives(WithLocked(DEFAULT_PERMISSIONS));
  }

  // ---------------------------------------------------------------------------
  // Object-level edits
  // ---------------------------------------------------------------------------

  /** The record of the directory holding `objPath`. */
  function ParentInfoPath(objPath: Path): Path
    requires objPath != []
  {
    InfoPath(objPath[..|objPath| - 1])
  }

  /** The properties a new object starts with: the given ones, or unlocked. */
  function InitialProps(props: Option<Bag>): Bag {
    match props
    case Some(b) => b
    case None => WithLocked(DEFAULT_PERMISSIONS)
  }

  /**
   * `add_obj_to_info`: adds `name` with the given properties (unlocked by default) unless
   * the record already lists it. The record written back is the validated one.
   */
  function AddObj(w: World, objPath: Path, name: string, props: Option<Bag>): (r: Result<World, InfoError>)
    requires objPath != []
    ensures r.Ok? ==> ReadValidateInfo(w, ParentInfoPath(objPath)).Ok?
    ensures r.Ok? && name in ReadValidateInfo(w, ParentInfoPath(objPath)).value.objects ==> r.value == w
    ensures r.Err? ==> ReadValidateInfo(w, ParentInfoPath(objPath)).Err?
                       || r.error.ReadError?
  {
    var ip := ParentInfoPath(objPath);
    var info :- ReadValidateInfo(w, ip);
    if name in info.objects then Ok(w)
    else
      WriteInfo(w, ip, Added(info, name, props))
  }

  /** `del_obj_from_info`: removes `name` if the record lists it; otherwise writes nothing. */
  function DelObj(w: World, objPath: Path, name: string): (r: Result<World, InfoError>)
    requires objPath != []
    ensures r.Ok? ==> ReadValidateInfo(w, ParentInfoPath(objPath)).Ok?
    ensures r.Ok? && name !in ReadValidateInfo(w, ParentInfoPath(objPath)).value.objects ==> r.value == w
  {
    var ip := ParentInfoPath(objPath);
    var info :- ReadValidateInfo(w, ip);
    if name !in info.objects then Ok(w)
    else WriteInfo(w, ip, Deleted(info, name))
  }

  /** `update_obj_status`: sets one property of `name`, creating the entry if needed. */
  function UpdateObj(w: World, objPath: Path, name: string, key: string, val: Value)
    : (r: Result<World, InfoError>)
    requires objPath != []
    ensures r.Ok? ==> ReadValidateInfo(w, ParentInfoPath(objPath)).Ok?
  {
    var ip := ParentInfoPath(objPath);
    var info :- ReadValidateInfo(w, ip);
    WriteInfo(w, ip, Updated(info, name, key, val))
  }

  /** `read_get_obj_info`: the object's properties, or none when the record omits it. */
  function GetObjInfo(w: World, infoPath: Path, name: string): (r: Result<Bag, InfoError>)
    ensures r.Ok? <==> ReadValidateInfo(w, infoPath).Ok?
    ensures r.Ok? && name in ReadValidateInfo(w, infoPath).value.objects ==>
      r.value == ReadValidateInfo(w, infoPath).value.objects[name]
    ensures r.Ok? && name !in ReadValidateInfo(w, infoPath).value.objects ==> r.value == map[]
    ensures r.Err? ==> r.error == ReadValidateInfo(w, infoPath).error
  {
    var info :- ReadValidateInfo(w, infoPath);
    Ok(if name in info.objects then info.objects[name] else map[])
  }

  /** `get_encrypted_flag`: the `decrypt_me` string of a level, from its parent's record. */
  function GetEncryptedFlag(w: World, path: Path, levelName: string): (r: Result<string, string>)
    requires path != []
    ensures r.Ok? <==>
      GetObjInfo(w, ParentInfoPath(path), levelName).Ok?
      && "decrypt_me" in GetObjInfo(w, ParentInfoPath(path), levelName).value
      && GetObjInfo(w, ParentInfoPath(path), levelName).value["decrypt_me"].Str?
    ensures r.Ok? ==> Str(r.value) == GetObjInfo(w, ParentInfoPath(path), levelName).value["decrypt_me"]
  {
    match GetObjInfo(w, ParentInfoPath(path), levelName)
    case Ok(bag) =>
      if "decrypt_me" in bag then
        (if bag["decrypt_me"].Str? then Ok(bag["decrypt_me"].s)
         else Err("decrypt_me property is not a string."))
      else Err("decrypt_me property not found in object info.")
    case Err(_) => Err("Error reading object info")
  }

  // ---------------------------------------------------------------------------
  // What the edits leave in the record
  // ---------------------------------------------------------------------------

  /**
   * After `add_obj_to_info` of a name the record did not list, the stored document lists
   * it with the given properties and keeps the validated record's other contents.
   */
  lemma AddObjReadBack(w: World, objPath: Path, name: string, props: Option<Bag>)
    requires objPath != [] && AddObj(w, objPath, name, props).Ok?
    requires name !in ReadValidateInfo(w, ParentInfoPath(objPath)).value.objects
    ensures var ip := ParentInfoPath(objPath);
      var before := ReadValidateInfo(w, ip).value;
      var after := Read(AddObj(w, objPath, name, props).value, ip);
      after.Ok? && after.value.Doc? && FromJson(after.value.doc).Some?
      && var rec := FromJson(after.value.doc).value;
      rec.location == before.location && rec.about == before.about
      && rec.objects.Keys == before.objects.Keys + {name}
      && (forall n :: n in before.objects ==> rec.objects[n] == before.objects[n])
      && rec.objects[name] == InitialProps(props)
  {
    var ip := ParentInfoPath(objPath);
    var before := ReadValidateInfo(w, ip).value;
    var i := Added(before, name, props);
    assert AddObj(w, objPath, name, props) == WriteInfo(w, ip, i);
    RecordStored(w, ip, i);
  }

  /**
   * The record `add_obj_to_info` writes, given the record it read: the old names plus the
   * new one, with every other object unchanged.
   */
  function Added(before: Info, name: string, props: Option<Bag>): (rec: Info)
    ensures rec.location == before.location && rec.about == before.about
    ensures rec.objects.Keys == before.objects.Keys + {name}
    ensures forall n :: n in before.objects && n != name ==> rec.objects[n] == before.objects[n]
    ensures rec.objects[name] == InitialProps(props)
  {
    before.(objects := before.objects[name := InitialProps(props)])
  }

  /** A record written is stored as its document, which parses back to it. */
  lemma RecordStored(w: World, ip: Path, i: Info)
    requires WriteInfo(w, ip, i).Ok?
    ensures var after := Read(WriteInfo(w, ip, i).value, ip);
      after.Ok? && after.value.Doc? && FromJson(after.value.doc) == Some(i)
  {
    WriteInfoStored(w, ip, i);
  }

  /** After `del_obj_from_info` the object is no longer listed and the rest is kept. */
  lemma DelObjReadBack(w: World, objPath: Path, name: string)
    requires objPath != [] && DelObj(w, objPath, name).Ok?
    ensures var ip := ParentInfoPath(objPath);
      var before := ReadValidateInfo(w, ip).value;
      ReadValidateInfo(DelObj(w, objPath, name).value, ip) == Ok(before.(objects := before.objects - {name}))
  {
    var before := ReadValidateInfo(w, ParentInfoPath(objPath)).value;
    if name in before.objects {
      DelObjWrites(w, objPath, name);
    } else {
      DelObjNoop(w, objPath, name);
    }
  }

  lemma DelObjWrites(w: World, objPath: Path, name: string)
    requires objPath != [] && DelObj(w, objPath, name).Ok?
    requires name in ReadValidateInfo(w, ParentInfoPath(objPath)).value.objects
    ensures var ip := ParentInfoPath(objPath);
      ReadValidateInfo(DelObj(w, objPath, name).value, ip) == Ok(Deleted(ReadValidateInfo(w, ip).value, name))
  {
    var ip := ParentInfoPath(objPath);
    var before := ReadValidateInfo(w, ip).value;
    var i := Deleted(before, name);
    assert DelObj(w, objPath, name) == WriteInfo(w, ip, i);
    ValidRoundTrip(w, ip, i);
  }

  lemma DelObjNoop(w: World, objPath: Path, name: string)
    requires objPath != [] && DelObj(w, objPath, name).Ok?
    requires name !in ReadValidateInfo(w, ParentInfoPath(objPath)).value.objects
    ensures var ip := ParentInfoPath(objPath);
      ReadValidateInfo(DelObj(w, objPath, name).value, ip) == Ok(Deleted(ReadValidateInfo(w, ip).value, name))
  {
    var before := ReadValidateInfo(w, ParentInfoPath(objPath)).value;
    assert before.objects - {name} == before.objects;
    assert Deleted(before, name) == before;
  }

  /**
   * The record `del_obj_from_info` writes, given the record it read: the name is gone,
   * every other object is unchanged, and a valid record stays valid.
   */
  function Deleted(before: Info, name: string): (rec: Info)
    ensures rec.location == before.location && rec.about == before.about
    ensures rec.objects.Keys == before.objects.Keys - {name}
    ensures forall n :: n in rec.objects ==> rec.objects[n] == before.objects[n]
    ensures Valid(before) ==> Valid(rec)
  {
    before.(objects := before.objects - {name})
  }

  /**
   * After `update_obj_status` the stored document parses (without validation, as the
   * source's unit test reads it) to a record whose object carries the new property, with
   * every other object as the reader saw it.
   */
  lemma UpdateObjReadBack(w: World, objPath: Path, name: string, key: string, val: Value)
    requires objPath != [] && UpdateObj(w, objPath, name, key, val).Ok?
    ensures var ip := ParentInfoPath(objPath);
      var before := ReadValidateInfo(w, ip).value;
      var after := Read(UpdateObj(w, objPath, name, key, val).value, ip);
      after.Ok? && after.value.Doc? && FromJson(after.value.doc).Some?
      && var rec := FromJson(after.value.doc).value;
      name in rec.objects && key in rec.objects[name] && rec.objects[name][key] == val
      && (forall k :: k in rec.objects[name] && k != key ==>
            name in before.objects && k in before.objects[name]
            && rec.objects[name][k] == before.objects[name][k])
      && (forall n :: n in before.objects && n != name ==> n in rec.objects && rec.objects[n] == before.objects[n])
      && rec.objects.Keys == before.objects.Keys + {name}
  {
    var ip := ParentInfoPath(objPath);
    var before := ReadValidateInfo(w, ip).value;
    var i := Updated(before, name, key, val);
    assert UpdateObj(w, objPath, name, key, val) == WriteInfo(w, ip, i);
    RecordStored(w, ip, i);
  }

  /**
   * The record `update_obj_status` writes, given the record it read: one key set on one
   * object (created if missing), and nothing else touched.
   */
  function Updated(before: Info, name: string, key: string, val: Value): (rec: Info)
    ensures rec.location == before.location && rec.about == before.about
    ensures name in rec.objects && key in rec.objects[name] && rec.objects[name][key] == val
    ensures forall k :: k in rec.objects[name] && k != key ==>
      name in before.objects && k in before.objects[name] && rec.objects[name][k] == before.objects[name][k]
    ensures forall n :: n in before.objects && n != name ==> n in rec.objects && rec.objects[n] == before.objects[n]
    ensures rec.objects.Keys == before.objects.Keys + {name}
  {
    var bag := if name in before.objects then before.objects[name] else map[];
    before.(objects := before.objects[name := bag[key := val]])
  }
}
