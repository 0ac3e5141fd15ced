/**
 * The `unlock` command: the player names a locked level or chest and types its flag; the
 * flag is judged by `check_level` or `check_chest`. Nothing is written: a correct flag only
 * produces a message.
 */
module Unlock {
  import opened Wrappers
  import opened Text
  import opened Paths
  import opened Json
  import opened Fs
  import opened Env
  import opened InfoReader
  import opened LockPerm
  import opened ArgParser
  import opened Flags
  import opened Console

  const PREFIX := "unlock: "
  const HELP_TXT := "\nUsage: unlock [OPTIONS] <LEVEL/CHEST_NAME>\n\nafter obtaining a flag for a level you can use this command to unlock the level by using the flag \nOptions:\n    -l, --level       Move instead of copy (cut/paste)\n    -c, --chest       Unlock \n    \nExamples:\n- copy file.txt new_file.txt         # Copy file\n\n"
  const PARSE_ERROR := "Error parsing arguments. Try 'help unlock' for more information."
  const FLAGS := ["-l", "--level", "-c", "--chest"]
  const NOT_AUTHENTICATED := "User not authenticated. Please log in."
  const EXACTLY_ONE := "Exactly one positional argument -giving path to directory/file to be unlocked -is expected."
  const INVALID_PATH := "Invalid path given"
  const NESTED := "you cannot try to unlock a chest/level nested inside a locked directory/level"
  const NOT_LOCKED := "target is not locked, you can try accessing it directly."
  const LOCK_UNREADABLE := "Unable to read lock status of the given target. Cannot unlock."
  const NO_NAME := "Failed to get locked file name: Invalid object name"
  const RECORD_UNREADABLE := "Failed to read info.json for the locked object: "
  const BAD_SALT := "Failed to get level salt Invalid 'obj_salt' property in info.json"
  const BAD_DECRYPT_ME := "Failed to get encrypted flag for the level/chest: "
  const BAD_COMPARE_ME := "Failed to get compare_me for the level/chest: "
  const INVALID_FLAG := "Invalid flag. Try again."
  const LEVEL_UNLOCKED := "{} is unlocked"
  const CHEST_UNLOCKED := " Chest {} is unlocked"

  function FlagPrompt(name: string): string {
    "Enter the flag for " + name + ":"
  }

  /** The object an argument names. */
  function Target(env: Env, currentDir: Path, arg: string): Path {
    env.normalize(Join(currentDir, arg))
  }

  /**
   * The judgement of a typed flag, once the three properties are known to be strings:
   * `check_level` for a level, `check_chest` for a chest. Either panics (`None`) unless
   * both salts parse.
   */
  function Judge(crypto: Crypto, isLevel: bool, flag: string, name: string, salt: string, compareMe: string,
                 user: User): (r: Option<bool>)
    ensures r.Some? ==> crypto.saltValid(salt) && crypto.saltValid(user.salt)
  {
    if isLevel then CheckLevel(crypto, flag, name, salt, compareMe, user.username, user.salt)
    else CheckChest(crypto, flag, name, salt, compareMe, user.salt)
  }

  /**
   * The tail of `unlock` for a locked object `name` whose properties are `bag`: the salt and
   * `decrypt_me` are read, the flag is asked for, `compare_me` is read, and the flag judged.
   * Indexing a property that is absent panics.
   */
  function UnlockLocked(crypto: Crypto, user: User, isLevel: bool, name: string, bag: Bag, prompter: Prompter)
    : (out: Outcome)
    ensures "obj_salt" in bag && "decrypt_me" in bag && "compare_me" in bag ==>
      out.Panic? ==> bag["obj_salt"].Str? && bag["decrypt_me"].Str? && bag["compare_me"].Str?
                     && Judge(crypto, isLevel, prompter.answer, name, bag["obj_salt"].s, bag["compare_me"].s, user).None?
    ensures out.asked != [] <==> "obj_salt" in bag && bag["obj_salt"].Str? && "decrypt_me" in bag && bag["decrypt_me"].Str?
    ensures out.asked != [] ==> out.asked == [FlagPrompt(name)]
  {
    if "obj_salt" !in bag then Panic([])
    else if !bag["obj_salt"].Str? then Reply(PREFIX + BAD_SALT, [])
    else if "decrypt_me" !in bag then Panic([])
    else if !bag["decrypt_me"].Str? then Reply(PREFIX + BAD_DECRYPT_ME + name, [])
    else
      var asked := [FlagPrompt(name)];
      if "compare_me" !in bag then Panic(asked)
      else if !bag["compare_me"].Str? then Reply(PREFIX + BAD_COMPARE_ME + name, asked)
      else match Judge(crypto, isLevel, prompter.answer, name, bag["obj_salt"].s, bag["compare_me"].s, user)
        case None => Panic(asked)
        case Some(true) => Reply(if isLevel then LEVEL_UNLOCKED else CHEST_UNLOCKED, asked)
        case Some(false) => Reply(PREFIX + INVALID_FLAG, asked)
  }

  /**
   * `unlock` once its arguments have parsed: a user must be logged in, exactly one target
   * must be named and exist, nothing above it may be locked, and it must itself read as
   * locked; then the flag is asked for and judged.
   */
  function UnlockWith(env: Env, w: World, pos: seq<string>, currentDir: Path, user: Option<User>,
                      prompter: Prompter, crypto: Crypto): (out: Outcome)
    ensures user.None? ==> out == Reply(PREFIX + NOT_AUTHENTICATED, [])
    ensures user.Some? && |pos| != 1 ==> out == Reply(PREFIX + EXACTLY_ONE, [])
    ensures user.Some? && |pos| == 1 && !Exists(w, Target(env, currentDir, pos[0])) ==>
      out == Reply(PREFIX + INVALID_PATH, [])
    ensures user.Some? && |pos| == 1 && Exists(w, Target(env, currentDir, pos[0])) ==>
      var target := Target(env, currentDir, pos[0]);
      if target == [] then out == Panic([])
      else match OperationLockedPerm(env.worldDir, w, target[..|target| - 1], "unlock", NESTED)
        case Err(m) => out == Reply(PREFIX + m, [])
        case Ok(_) =>
          match ReadLockPerm(w, target)
          case Err(_) => out == Reply(PREFIX + LOCK_UNREADABLE, [])
          case Ok((_, isLocked)) => !isLocked ==> out == Reply(PREFIX + NOT_LOCKED, [])
    ensures out.asked != [] ==>
      && user.Some? && |pos| == 1
      && var target := Target(env, currentDir, pos[0]);
         && target != [] && ReadLockPerm(w, target).Ok? && ReadLockPerm(w, target).value.1
         && FileName(target).Some? && out.asked == [FlagPrompt(FileName(target).value)]
  {
    if user.None? then Reply(PREFIX + NOT_AUTHENTICATED, [])
    else if |pos| != 1 then Reply(PREFIX + EXACTLY_ONE, [])
    else
      var target := Target(env, currentDir, pos[0]);
      if !Exists(w, target) then Reply(PREFIX + INVALID_PATH, [])
      else if target == [] then Panic([])
      else match OperationLockedPerm(env.worldDir, w, target[..|target| - 1], "unlock", NESTED)
        case Err(m) => Reply(PREFIX + m, [])
        case Ok(_) =>
          match ReadLockPerm(w, target)
          case Err(_) => Reply(PREFIX + LOCK_UNREADABLE, [])
          case Ok((isLevel, isLocked)) =>
            if !isLocked then Reply(PREFIX + NOT_LOCKED, [])
            else match FileName(target)
              case None => Reply(PREFIX + NO_NAME, [])
              case Some(name) =>
                var infoPath := ParentInfoPath(target);
                match GetObjInfo(w, infoPath, name)
                case Err(e) => Reply(PREFIX + RECORD_UNREADABLE + Describe(e, infoPath), [])
                case Ok(bag) => UnlockLocked(crypto, user.value, isLevel, name, bag, prompter)
  }

  /**
   * A validated record guarantees the three cryptographic properties of every object whose
   * code reads as locked, so `unlock` never panics by indexing them.
   */
  lemma LockedHasSecrets(w: World, target: Path)
    requires target != [] && ReadLockPerm(w, target).Ok? && ReadLockPerm(w, target).value.1
    ensures FileName(target).Some?
    ensures var r := GetObjInfo(w, ParentInfoPath(target), FileName(target).value);
      r.Ok? && "obj_salt" in r.value && "decrypt_me" in r.value && "compare_me" in r.value
  {
    var info := ReadValidateInfo(w, ParentInfoPath(target)).value;
    var name := FileName(target).value;
    var s := StoredLock(info, name).value;
    var b := info.objects[name];
    assert NormalizeBag(b) == Some(b);
    NormalizeBagSpec(b);
    assert LockedStr(b) && b["locked"].s == s;
    BitPairLength(s);
    assert SecondBitSet(s);
  }

  /**
   * `unlock` panics only at the root, which has no parent, or where the cryptography does:
   * a salt that does not parse, or a key over an empty string.
   */
  lemma UnlockPanicsOnlyInCrypto(env: Env, w: World, pos: seq<string>, currentDir: Path, user: Option<User>,
                                 prompter: Prompter, crypto: Crypto)
    requires UnlockWith(env, w, pos, currentDir, user, prompter, crypto).Panic?
    ensures user.Some? && |pos| == 1
    ensures var target := Target(env, currentDir, pos[0]);
      target == [] ||
      (&& ReadLockPerm(w, target).Ok? && FileName(target).Some?
       && var bag := GetObjInfo(w, ParentInfoPath(target), FileName(target).value).value;
          && bag["obj_salt"].Str? && bag["compare_me"].Str?
          && Judge(crypto, ReadLockPerm(w, target).value.0, prompter.answer, FileName(target).value,
                   bag["obj_salt"].s, bag["compare_me"].s, user.value).None?)
  {
    var target := Target(env, currentDir, pos[0]);
    if target != [] {
      assert ReadLockPerm(w, target).Ok? && ReadLockPerm(w, target).value.1;
      LockedHasSecrets(w, target);
    }
  }

  /** The reply reports a successful unlock. */
  predicate Unlocked(out: Outcome) {
    out.Reply? && (out.text == LEVEL_UNLOCKED || out.text == CHEST_UNLOCKED)
  }

  /**
   * A reply of success comes only after the flag was asked for, for a logged-in user and an
   * object that reads as locked, and only when the flag passes `check_level` (for a level) or
   * `check_chest` (for a chest); which of the two literal texts appears says which.
   */
  lemma UnlockSucceeds(env: Env, w: World, pos: seq<string>, currentDir: Path, user: Option<User>,
                       prompter: Prompter, crypto: Crypto)
    requires Unlocked(UnlockWith(env, w, pos, currentDir, user, prompter, crypto))
    ensures user.Some? && |pos| == 1
    ensures var target := Target(env, currentDir, pos[0]);
      var out := UnlockWith(env, w, pos, currentDir, user, prompter, crypto);
      && target != [] && ReadLockPerm(w, target).Ok? && ReadLockPerm(w, target).value.1
      && FileName(target).Some?
      && OperationLockedPerm(env.worldDir, w, target[..|target| - 1], "unlock", NESTED).Ok?
      && var isLevel := ReadLockPerm(w, target).value.0;
         var bag := GetObjInfo(w, ParentInfoPath(target), FileName(target).value).value;
         && bag["obj_salt"].Str? && bag["compare_me"].Str?
         && Judge(crypto, isLevel, prompter.answer, FileName(target).value, bag["obj_salt"].s,
                  bag["compare_me"].s, user.value) == Some(true)
         && (out.text == LEVEL_UNLOCKED <==> isLevel)
  {
    var out := UnlockWith(env, w, pos, currentDir, user, prompter, crypto);
    assert out.text[0] != 'u';
    var target := Target(env, currentDir, pos[0]);
    var name := FileName(target).value;
    var isLevel := ReadLockPerm(w, target).value.0;
    var bag := GetObjInfo(w, ParentInfoPath(target), name).value;
    assert out == UnlockLocked(crypto, user.value, isLevel, name, bag, prompter);
    LockedSucceeds(crypto, user.value, isLevel, name, bag, prompter);
  }

  /** The success texts of the tail, and what they require. */
  lemma LockedSucceeds(crypto: Crypto, user: User, isLevel: bool, name: string, bag: Bag, prompter: Prompter)
    requires Unlocked(UnlockLocked(crypto, user, isLevel, name, bag, prompter))
    ensures "obj_salt" in bag && "compare_me" in bag && bag["obj_salt"].Str? && bag["compare_me"].Str?
    ensures Judge(crypto, isLevel, prompter.answer, name, bag["obj_salt"].s, bag["compare_me"].s, user) == Some(true)
    ensures UnlockLocked(crypto, user, isLevel, name, bag, prompter).text == LEVEL_UNLOCKED <==> isLevel
  {
    var out := UnlockLocked(crypto, user, isLevel, name, bag, prompter);
    assert out.text[0] != 'u';
    assert LEVEL_UNLOCKED[0] != CHEST_UNLOCKED[0];
  }

  /**
   * `unlock`: parses the arguments against `-l`, `--level`, `-c` and `--chest` (which are
   * accepted and then ignored), then runs as `UnlockWith` on the positional ones.
   */
  method UnlockCommand(env: Env, w: World, args: seq<string>, currentDir: Path, user: Option<User>,
                       prompter: Prompter, crypto: Crypto) returns (out: Outcome)
    ensures (forall i :: 0 <= i < |args| ==> !Rejected(NewParser(FLAGS).flags, args[i])) ==>
      out == UnlockWith(env, w, Positional(args), currentDir, user, prompter, crypto)
    ensures (exists i :: 0 <= i < |args| && Rejected(NewParser(FLAGS).flags, args[i])) ==>
      out == Reply(HELP_TXT, []) || out == Reply(PARSE_ERROR, [])
    ensures forall k :: FirstRejectedAt(NewParser(FLAGS).flags, args, k) ==>
      out == Reply(if IsHelp(args[k]) then HELP_TXT else PARSE_ERROR, [])
  {
    var p := NewParser(FLAGS);
    var q, res := Parse(p, args);
    match res
    case Err(e) =>
      out := Reply(if e == "help" then HELP_TXT else PARSE_ERROR, []);
    case Ok(_) =>
      out := UnlockWith(env, w, PositionalArgs(q), currentDir, user, prompter, crypto);
  }
}
