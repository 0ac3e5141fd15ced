/**
 * The `restore` and `save` shell commands: confirmation prompts and the choice between
 * restoring from an archive and creating one, over the operations of `Snapshot`.
 */
module RestoreCmd {
  import opened Wrappers
  import opened Text
  import opened Paths
  import opened Fs
  import opened ArgParser
  import opened InfoReader
  import opened Snapshot
  import opened Console

  const PREFIX := "restore: "
  const HELP_TEXT := "\nUsage: restore\n\n- restore                     : Restore the Sekai directory from the last saved state. \n- restore -f | --force        : This means all your progress is gone, and you will have to start over from scratch.\n"
  const FLAGS := ["-f", "--force"]
  const UNKNOWN_FLAG := "restore: unknown flag\nTry 'help save' for more information."
  const PARSE_ERROR := "Error parsing arguments. Try 'help restore' for more information."
  const TOO_MANY := "Too many positional arguments provided. No arguments expected."
  const CONFIRM_FORCE := "Are you sure you want to restore? This will erase all progress."
  const CONFIRM_SAVED := "Are you sure you want to restore to the last saved version?"
  const CANCELLED := "Restore cancelled by user."
  const RESTORE_FAILED := "Failed to restore Sekai. Please check the logs for more details."
  const NO_RESTORE_FILE := "No restore file found. "
  const BACKUP_FAILED := "Failed to backup current state. Please check the logs for more details."
  const BACKUP_CREATED := "Backup created successfully."
  const RESTORED := "Sekai restored successfully.\n"
  const RESTORED_SAVED := "Sekai restored successfully from previously saved progress.\n"
  const SAVE_FIRST := "No restore file found. Please save your progress first with `save` command."

  const SAVE_PREFIX := "save: "
  const SAVE_HELP := "\nUsage: save\n\nSaves the progress of your sekai progress. This means all your progress is saved till and you can restore it later.\n- save  : Save your current progress of the Sekai.\n"
  const SAVE_PARSE_ERROR := "Error parsing arguments. Try 'help save' for more information."
  const SAVE_FAILED := "Failed to save Sekai. Please check the logs for more details."
  const SAVED := "Sekai saved successfully \n"

  /** The confirmation question of a restore with or without `--force`. */
  function ConfirmPrompt(force: bool): string {
    if force then CONFIRM_FORCE else CONFIRM_SAVED
  }

  /**
   * `restore` once its arguments have parsed: no positional argument is allowed; after the
   * confirmation, `--force` restores from `restore_me` or, lacking it, creates it, and the
   * plain form restores from `save_me` if there is one.
   */
  function RestoreWith(w: World, root: Path, pos: seq<string>, force: bool, prompter: Prompter): (r: Run)
    ensures pos != [] ==> r == Run(Reply(PREFIX + TOO_MANY, []), w)
    ensures pos == [] ==> r.out.Reply? && r.out.asked == [ConfirmPrompt(force)]
    ensures r.world != w ==> pos == [] && prompter.confirms
    ensures pos == [] && prompter.confirms && force ==>
      if CanRestore(w, root) then
        r.world == Restore(RESTORE, w, root).world
        && (r.out.text == RESTORED <==> Restore(RESTORE, w, root).res.Ok?)
        && (r.out.text == PREFIX + RESTORE_FAILED <==> Restore(RESTORE, w, root).res.Err?)
      else
        r.world == Backup(RESTORE, w, root).world
        && (r.out.text == PREFIX + NO_RESTORE_FILE + BACKUP_CREATED <==> Backup(RESTORE, w, root).res.Ok?)
        && (r.out.text == PREFIX + NO_RESTORE_FILE + BACKUP_FAILED <==> Backup(RESTORE, w, root).res.Err?)
    ensures pos == [] && prompter.confirms && !force ==>
      if CanSave(w, root) then
        r.world == Restore(SAVE, w, root).world
        && (r.out.text == RESTORED_SAVED <==> Restore(SAVE, w, root).res.Ok?)
        && (r.out.text == PREFIX + RESTORE_FAILED <==> Restore(SAVE, w, root).res.Err?)
      else
        r.world == w && r.out.text == PREFIX + SAVE_FIRST
  {
    if pos != [] then Run(Reply(PREFIX + TOO_MANY, []), w)
    else
      var asked := [ConfirmPrompt(force)];
      if !prompter.confirms then Run(Reply(CANCELLED, asked), w)
      else if force then
        if CanRestore(w, root) then
          var d := Restore(RESTORE, w, root);
          Run(Reply(if d.res.Err? then PREFIX + RESTORE_FAILED else RESTORED, asked), d.world)
        else
          var d := Backup(RESTORE, w, root);
          Run(Reply(PREFIX + NO_RESTORE_FILE + (if d.res.Err? then BACKUP_FAILED else BACKUP_CREATED), asked),
              d.world)
      else if CanSave(w, root) then
        var d := Restore(SAVE, w, root);
        Run(Reply(if d.res.Err? then PREFIX + RESTORE_FAILED else RESTORED_SAVED, asked), d.world)
      else Run(Reply(PREFIX + SAVE_FIRST, asked), w)
  }

  /**
   * `save` once its arguments have parsed: no positional argument is allowed; otherwise
   * `save_me` is written afresh.
   */
  function SaveWith(w: World, root: Path, pos: seq<string>): (r: Run)
    ensures pos != [] ==> r == Run(Reply(SAVE_PREFIX + TOO_MANY, []), w)
    ensures pos == [] ==> r.world == Backup(SAVE, w, root).world && r.out.asked == []
    ensures pos == [] ==> (r.out == Reply(SAVED, []) <==> Backup(SAVE, w, root).res.Ok?)
  {
    if pos != [] then Run(Reply(SAVE_PREFIX + TOO_MANY, []), w)
    else
      var d := Backup(SAVE, w, root);
      Run(Reply(if d.res.Err? then SAVE_PREFIX + SAVE_FAILED else SAVED, []), d.world)
  }

  // ---------------------------------------------------------------------------
  // What the decision table promises
  // ---------------------------------------------------------------------------

  /** Declining the confirmation touches no archive and leaves the world as it was. */
  lemma DeclinedRestoreChangesNothing(w: World, root: Path, force: bool, prompter: Prompter)
    requires !prompter.confirms
    ensures RestoreWith(w, root, [], force, prompter) == Run(Reply(CANCELLED, [ConfirmPrompt(force)]), w)
  {
  }

  /** The well-formedness conditions a world root must meet for restore points to work. */
  predicate Ready(w: World, root: Path, usage: string) {
    && RootDir(w, root)
    && (root + [DIR_INFO] !in w || w[root + [DIR_INFO]].Dir?)
    && (ArchivePath(root, usage) !in w || w[ArchivePath(root, usage)].File?)
  }

  /**
   * A forced restore without a restore point creates one: it reports the backup and leaves
   * the root's entries archived in `restore_me`.
   */
  lemma ForcedRestoreCreatesPoint(w: World, root: Path, prompter: Prompter)
    requires prompter.confirms && RootDir(w, root) && !CanRestore(w, root)
    requires root + [DIR_INFO] !in w || w[root + [DIR_INFO]].Dir?
    ensures var r := RestoreWith(w, root, [], true, prompter);
      var w1 := w[root + [DIR_INFO] := Dir];
      && r.out == Reply(PREFIX + NO_RESTORE_FILE + BACKUP_CREATED, [CONFIRM_FORCE])
      && r.world == w1[ArchivePath(root, RESTORE) := File(Archive(Packed(w1, root, RESTORE)))]
      && CanRestore(r.world, root)
  {
    ArchiveExists(w, root, RESTORE);
    BackupSpec(RESTORE, w, root);
    ForcedBackup(w, root, prompter);
  }

  /** A forced restore without a restore point runs `backup_sekai("restore")`. */
  lemma ForcedBackup(w: World, root: Path, prompter: Prompter)
    requires prompter.confirms && !CanRestore(w, root) && Backup(RESTORE, w, root).res.Ok?
    ensures RestoreWith(w, root, [], true, prompter)
         == Run(Reply(PREFIX + NO_RESTORE_FILE + BACKUP_CREATED, [CONFIRM_FORCE]), Backup(RESTORE, w, root).world)
  {
  }

  /**
   * The restore point a first `restore -f` creates is what a later `restore -f` goes back
   * to: as long as `restore_me` is left intact, every entry outside `.dir_info` returns to
   * its state at the first call.
   */
  lemma ForcedRestoreRoundTrip(w0: World, root: Path, w: World, prompter: Prompter)
    requires prompter.confirms && RootDir(w0, root) && !CanRestore(w0, root)
    requires root + [DIR_INFO] !in w0 || w0[root + [DIR_INFO]].Dir?
    requires RootDir(w, root) && SaveIsFile(w, root)
    requires ArchivePath(root, RESTORE) in w
    requires ArchivePath(root, RESTORE) in RestoreWith(w0, root, [], true, prompter).world
    requires w[ArchivePath(root, RESTORE)]
          == RestoreWith(w0, root, [], true, prompter).world[ArchivePath(root, RESTORE)]
    ensures RestoreWith(w, root, [], true, prompter).out == Reply(RESTORED, [CONFIRM_FORCE])
    ensures var w' := RestoreWith(w, root, [], true, prompter).world;
      forall k :: StrictlyBelow(root, k) && k[|root|] != DIR_INFO ==>
        (k in w' <==> k in w0) && (k in w0 ==> w'[k] == w0[k])
  {
    ArchiveExists(w0, root, RESTORE);
    ArchiveExists(w, root, RESTORE);
    SnapshotRoundTrip(RESTORE, w0, root, w);
  }

  /**
   * `save` followed, later, by a plain `restore` with `save_me` intact brings every entry
   * outside `.dir_info` back to its state when `save` ran.
   */
  lemma SaveRestoreRoundTrip(w0: World, root: Path, w: World, prompter: Prompter)
    requires prompter.confirms && Ready(w0, root, SAVE)
    requires RootDir(w, root) && SaveIsFile(w, root)
    requires ArchivePath(root, SAVE) in w && ArchivePath(root, SAVE) in SaveWith(w0, root, []).world
    requires w[ArchivePath(root, SAVE)] == SaveWith(w0, root, []).world[ArchivePath(root, SAVE)]
    ensures SaveWith(w0, root, []).out == Reply(SAVED, [])
    ensures RestoreWith(w, root, [], false, prompter).out == Reply(RESTORED_SAVED, [CONFIRM_SAVED])
    ensures var w' := RestoreWith(w, root, [], false, prompter).world;
      forall k :: StrictlyBelow(root, k) && k[|root|] != DIR_INFO ==>
        (k in w' <==> k in w0) && (k in w0 ==> w'[k] == w0[k])
  {
    BackupSpec(SAVE, w0, root);
    ArchiveExists(w, root, SAVE);
    SnapshotRoundTrip(SAVE, w0, root, w);
  }

  /** Without saved progress a plain `restore` only answers with a hint. */
  lemma NothingSavedNothingRestored(w: World, root: Path, prompter: Prompter)
    requires prompter.confirms && !CanSave(w, root)
    ensures RestoreWith(w, root, [], false, prompter) == Run(Reply(PREFIX + SAVE_FIRST, [CONFIRM_SAVED]), w)
  {
  }

  // ---------------------------------------------------------------------------
  // The commands with their argument parsing
  // ---------------------------------------------------------------------------

  /**
   * `restore`: accepts `-f`/`--force`; a help flag gives the help text and an unknown flag
   * its message, with the world untouched.
   */
  method RestoreCommand(w: World, root: Path, args: seq<string>, prompter: Prompter) returns (r: Run)
    ensures (forall i :: 0 <= i < |args| ==> !Rejected(NewParser(FLAGS).flags, args[i])) ==>
      r == RestoreWith(w, root, Positional(args), "--force" in args || "-f" in args, prompter)
    ensures (exists i :: 0 <= i < |args| && Rejected(NewParser(FLAGS).flags, args[i])) ==>
      r == Run(Reply(HELP_TEXT, []), w) || r == Run(Reply(UNKNOWN_FLAG, []), w)
    ensures forall k :: FirstRejectedAt(NewParser(FLAGS).flags, args, k) ==>
      r == Run(Reply(if IsHelp(args[k]) then HELP_TEXT else UNKNOWN_FLAG, []), w)
  {
    var p := NewParser(FLAGS);
    var q, res := Parse(p, args);
    match res
    case Err(e) =>
      var text := if e == "help" then HELP_TEXT else if e == "unknown" then UNKNOWN_FLAG else PARSE_ERROR;
      r := Run(Reply(text, []), w);
    case Ok(_) =>
      r := RestoreWith(w, root, PositionalArgs(q), HasFlag(q, "--force") || HasFlag(q, "-f"), prompter);
  }

  /** `save`: accepts no flag; a help flag gives the help text and any other flag an error. */
  method SaveCommand(w: World, root: Path, args: seq<string>) returns (r: Run)
    ensures (forall i :: 0 <= i < |args| ==> !StartsWith(args[i], "-")) ==> r == SaveWith(w, root, args)
    ensures (exists i :: 0 <= i < |args| && StartsWith(args[i], "-")) ==>
      r == Run(Reply(SAVE_HELP, []), w) || r == Run(Reply(SAVE_PARSE_ERROR, []), w)
    ensures forall k :: FirstRejectedAt(NewParser([]).flags, args, k) ==>
      r == Run(Reply(if IsHelp(args[k]) then SAVE_HELP else SAVE_PARSE_ERROR, []), w)
  {
    var p := NewParser([]);
    var q, res := Parse(p, args);
    match res
    case Err(e) =>
      r := Run(Reply(if e == "help" then SAVE_HELP else SAVE_PARSE_ERROR, []), w);
    case Ok(_) =>
      PositionalOfPlain(q.args);
      r := SaveWith(w, root, PositionalArgs(q));
  }
}
