/**
 * Lock codes. Every object's entry in its parent directory's record carries a two-character
 * `locked` code; `read_lock_perm` decodes it and `operation_locked_perm` refuses an
 * operation when the object or any ancestor reads as locked.
 */
module LockPerm {
  import opened Wrappers
  import opened Text
  import opened Paths
  import opened Json
  import opened Fs
  import opened InfoReader

  /** Why a lock status could not be read. */
  datatype LockError =
    | NoParent
    | InfoUnreadable(cause: InfoError)
    | InvalidName
    | StatusMissing
    | BadLength
    | BadFormat

  /** The `locked` string stored for `objPath` in its parent's record, if any. */
  function StoredLock(info: Info, name: string): Option<string> {
    if name in info.objects && "locked" in info.objects[name] && info.objects[name]["locked"].Str?
    then Some(info.objects[name]["locked"].s)
    else None
  }

  /**
   * The character loop of `read_lock_perm`: every character must be a binary digit; the
   * pair returned is (first character is '1', second character is '1').
   */
  function DecodeBits(s: string): (r: Result<(bool, bool), LockError>)
    requires |Bytes(s)| == 2
    ensures r.Ok? <==> IsBitPair(s)
    ensures r.Ok? ==> |s| == 2 && r.value == (s[0] == '1', s[1] == '1')
  {
    BitPairLength(s);
    if forall i :: 0 <= i < |s| ==> s[i] == '0' || s[i] == '1' then
      Ok((s[0] == '1', s[1] == '1'))
    else Err(BadFormat)
  }

  /**
   * `read_lock_perm(obj_path)`: the decoded `locked` code of the object, read from the
   * record of its parent. Callers bind the pair as `(is_level, is_locked)`.
   */
  function ReadLockPerm(w: World, objPath: Path): (r: Result<(bool, bool), LockError>)
    ensures r.Ok? <==>
      && objPath != []
      && ReadValidateInfo(w, ParentInfoPath(objPath)).Ok?
      && FileName(objPath).Some?
      && StoredLock(ReadValidateInfo(w, ParentInfoPath(objPath)).value, FileName(objPath).value).Some?
      && IsBitPair(StoredLock(ReadValidateInfo(w, ParentInfoPath(objPath)).value, FileName(objPath).value).value)
    ensures r.Ok? ==>
      var s := StoredLock(ReadValidateInfo(w, ParentInfoPath(objPath)).value, FileName(objPath).value).value;
      |s| == 2 && r.value == (s[0] == '1', s[1] == '1')
  {
    if objPath == [] then Err(NoParent)
    else match ReadValidateInfo(w, ParentInfoPath(objPath))
      case Err(e) => Err(InfoUnreadable(e))
      case Ok(info) =>
        match FileName(objPath)
        case None => Err(InvalidName)
        case Some(name) =>
          match StoredLock(info, name)
          case None => Err(StatusMissing)
          case Some(s) =>
            if |Bytes(s)| != 2 then Err(BadLength) else DecodeBits(s)
  }

  /**
   * The length and format checks never fire: a string `locked` code that is not two binary
   * digits already makes the record fail validation.
   */
  lemma FormatErrorsUnreachable(w: World, objPath: Path)
    ensures ReadLockPerm(w, objPath) != Err(BadLength)
    ensures ReadLockPerm(w, objPath) != Err(BadFormat)
  {
    if objPath != [] && ReadValidateInfo(w, ParentInfoPath(objPath)).Ok? && FileName(objPath).Some? {
      var info := ReadValidateInfo(w, ParentInfoPath(objPath)).value;
      var name := FileName(objPath).value;
      if StoredLock(info, name).Some? {
        var b := info.objects[name];
        assert NormalizeBag(b) == Some(b);
        NormalizeBagSpec(b);
        assert LockedStr(b);
      }
    }
  }

  /** The code reads as locked: the second character is '1'. */
  predicate LockedAt(w: World, p: Path) {
    ReadLockPerm(w, p).Ok? && ReadLockPerm(w, p).value.1
  }

  /**
   * The documented bit order is (locked, kind of lock): first character the lock bit. The
   * code takes the lock bit from the second character, so an object stored with `"10"` —
   * locked, normal lock, by the documentation — reads as a level that is not locked.
   */
  lemma BitOrderAgainstDoc(w: World, objPath: Path)
    requires objPath != [] && ReadValidateInfo(w, ParentInfoPath(objPath)).Ok? && FileName(objPath).Some?
    requires StoredLock(ReadValidateInfo(w, ParentInfoPath(objPath)).value, FileName(objPath).value) == Some("10")
    ensures ReadLockPerm(w, objPath) == Ok((true, false))
    ensures !LockedAt(w, objPath)
  {
    BitPairLength("10");
  }

  /**
   * The deepest path on the chain `p`, `parent(p)`, … (every path that has a parent) that
   * satisfies `locked`.
   */
  function FirstOnChain(locked: Path -> bool, p: Path): (r: Option<Path>)
    ensures r.Some? ==> 0 < |r.value| <= |p| && r.value == p[..|r.value|] && locked(r.value)
    decreases |p|
  {
    if p == [] then None
    else if locked(p) then Some(p)
    else FirstOnChain(locked, p[..|p| - 1])
  }

  /** `p[..k]` satisfies `locked` and no longer prefix of `p` does. */
  predicate Deepest(locked: Path -> bool, p: Path, k: int) {
    0 < k <= |p| && locked(p[..k]) && forall j :: k < j <= |p| ==> !locked(p[..j])
  }

  predicate NoneOnChain(locked: Path -> bool, p: Path) {
    forall k :: 0 < k <= |p| ==> !locked(p[..k])
  }

  /**
   * The walk finds the longest non-empty prefix of `p` that satisfies `locked`, and finds
   * nothing exactly when no non-empty prefix does.
   */
  lemma {:induction false} FirstOnChainSpec(locked: Path -> bool, p: Path)
    ensures FirstOnChain(locked, p).None? <==> NoneOnChain(locked, p)
    ensures FirstOnChain(locked, p).Some? ==>
      exists k :: Deepest(locked, p, k) && FirstOnChain(locked, p).value == p[..k]
    decreases |p|
  {
    if p != [] {
      var init := p[..|p| - 1];
      FirstOnChainSpec(locked, init);
      assert forall k :: 0 < k <= |init| ==> init[..k] == p[..k];
      assert p[..|p|] == p;
      if locked(p) {
        assert Deepest(locked, p, |p|);
      } else if FirstOnChain(locked, init).Some? {
        var k :| Deepest(locked, init, k) && FirstOnChain(locked, init).value == init[..k];
        assert Deepest(locked, p, k);
      } else {
        assert NoneOnChain(locked, p);
      }
    }
  }

  /** The status test the walk applies. */
  function LockedIn(w: World): Path -> bool {
    (p: Path) => LockedAt(w, p)
  }

  /** `operation: HOME/… is locked. message` */
  function Denial(worldDir: Path, operation: string, p: Path, message: string): (r: string)
    ensures StartsWith(r, operation + ": ") && EndsWith(r, " is locked. " + message)
  {
    var head := operation + ": ";
    var tail := " is locked. " + message;
    var r := head + RelativeDisplay(p, worldDir) + tail;
    assert r == head + (RelativeDisplay(p, worldDir) + tail);
    assert r[..|head|] == head;
    assert r[|r| - |tail|..] == tail;
    r
  }

  /**
   * `operation_locked_perm`: walks from the object up through every path that has a parent
   * (past the world root, up to `/`), refusing at the first that reads as locked; then
   * checks the object itself once more. Unreadable statuses never refuse.
   */
  function OperationLockedPerm(worldDir: Path, w: World, objPath: Path, operation: string, message: string)
    : (r: Result<(), string>)
    ensures r.Err? ==> StartsWith(r.error, operation + ": ") && EndsWith(r.error, " is locked. " + message)
  {
    match FirstOnChain(LockedIn(w), objPath)
    case Some(p) => Err(Denial(worldDir, operation, p, message))
    case None =>
      match ReadLockPerm(w, objPath)
      case Ok((_, true)) => Err(Denial(worldDir, operation, objPath, message))
      case Ok((_, false)) => Ok(())
      case Err(_) => Ok(())
  }

  /**
   * The operation is refused exactly when some non-empty prefix of the path reads as
   * locked, and the refusal names the longest such prefix. In particular a status that
   * cannot be read never refuses, and the closing check of the object adds nothing.
   */
  lemma OperationLockedPermSpec(worldDir: Path, w: World, objPath: Path, operation: string, message: string)
    ensures var r := OperationLockedPerm(worldDir, w, objPath, operation, message);
      (r.Err? <==> !NoneOnChain(LockedIn(w), objPath))
      && (r.Err? ==> exists k :: Deepest(LockedIn(w), objPath, k)
                                && r.error == Denial(worldDir, operation, objPath[..k], message))
  {
    FirstOnChainSpec(LockedIn(w), objPath);
    if FirstOnChain(LockedIn(w), objPath).None? && objPath != [] {
      assert objPath[..|objPath|] == objPath;
      assert !LockedAt(w, objPath);
    }
  }

  /** Without the closing check of the object the outcome would be the same. */
  lemma FinalCheckRedundant(worldDir: Path, w: World, objPath: Path, operation: string, message: string)
    ensures OperationLockedPerm(worldDir, w, objPath, operation, message)
         == match FirstOnChain(LockedIn(w), objPath)
            case Some(p) => Err(Denial(worldDir, operation, p, message))
            case None => Ok(())
  {
    if FirstOnChain(LockedIn(w), objPath).None? && objPath != [] {
      FirstOnChainSpec(LockedIn(w), objPath);
      assert objPath[..|objPath|] == objPath;
    }
  }
}
