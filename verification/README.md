# deemak core in Dafny

deemak is a text-adventure shell over a *sekai*: a directory tree on disk in which every
directory carries a metadata record `.dir_info/info.json`. The record holds the
directory's `location` and `about` text and an `objects` map with one entry per child. An
entry's two-character `locked` code says whether the child is locked and whether it is a
*level*, which is opened by answering a puzzle, or a *chest*, which is opened with a flag.
The player moves with `go`, lists with `ls`, reads files with `read`, edits the tree with
`copy`, `del` and `tap`, and opens locks with `solve` and `unlock`. Restore points and saved
progress are archives kept in the root's `.dir_info`.

This project models that core as pure functions over an immutable world and proves what
the commands promise about it.

| module | file | what it models |
|---|---|---|
| `Wrappers`, `Text`, `Json` | wrappers.dfy, text.dfy, json.dfy | `Option`/`Result`; the `str` helpers the shell uses (Unicode `trim`, `trim_matches`, `starts_with`, UTF-8 length); the parsed form of a JSON document |
| `Paths` | paths.dfy | `std::path`: joining a user argument, `parent`, `file_name`, `strip_prefix`, `starts_with`, and the display relative to the world root (`relative_deemak_path`, `whereami`) |
| `Fs` | fs.dfy | the `std::fs` calls the core makes, as functions from a world to a new world or an `io::Error` |
| `Env`, `Console` | env.dfy, console.dfy | the helpers whose definitions are outside the core, passed as parameters; what a command returns and the confirmation prompter |
| `ArgParser` | argparser.dfy | the flag parser the commands share |
| `InfoReader` | info_reader.dfy | the record format, its validation and normalisation on read, defaults, and the per-object edits |
| `LockPerm` | lock_perm.dfy | `read_lock_perm` and the ancestor walk of `operation_locked_perm` |
| `ValidSekai`, `FindRoot` | valid_sekai.dfy, find_root.dfy | the record reconciliation `create_dir_info`, the tree walk that runs it everywhere, `validate_or_create_sekai`, and `find_home` |
| `Security`, `Flags` | security.dfy, flags.dfy | the substitution cipher with its 32-bit arithmetic, and the flag chain of `solve`/`unlock` |
| `Solve`, `Unlock`, `Go`, `Ls`, `ReadCmd`, `Copy`, `Del`, `Tap` | one file each | the shell commands |
| `Snapshot`, `RestoreCmd` | snapshot.dfy, restore_cmd.dfy | `backup_sekai`/`restore_sekai` and the `restore`/`save` commands |
| `TabCompletion`, `ShellHistory`, `Wrapit` | one file each | completion at the prompt, the command history, and fixed-width wrapping |
| `LegacyInfoReader`, `LegacySekai` | legacy_info_reader.dfy, legacy_sekai.dfy | the older two-field reader `utils::info_reader` and the older tree check `utils::valid_sekai` |

The world is a `map<Path, Node>`. A path is the sequence of its components below the
filesystem root. `..` is kept when an argument is joined and is resolved by the filesystem
calls, as the operating system does. A command returns its reply text and whether it asked
the player something, or `Panic` where the source unwraps an error or divides by zero,
together with the world it leaves behind.

Two places in the source do not do what they evidently intend; both are listed under
"## Findings". The commands use the code as written; the corrected version is kept beside
it, with the property the code evidently intends proved about it. Where the project's own documentation and the code
disagree, the model follows the code:

- `read_lock_perm` is documented as taking the lock bit from the first character
  (src/metainfo/lock_perm.rs:9-11). It returns the characters in order as
  `(is_level_locked, is_locked)`, and callers test the second one, so the second character
  is the lock bit (`LockPerm.BitOrderAgainstDoc`).
- Reading a record is meant to drop a stray `decrypt_me` from an unlocked entry. The branch
  that does this only runs for a `locked` string with no second character, and validation has
  already refused such strings, so the stray property survives (`InfoReader.StrayDecryptMeSurvives`).
- `find_home` is written as a loop that climbs towards the filesystem root. It stops after
  the first pass, because the directory it compares against is the start directory
  (`FindRoot.FindHome`).
- `unlock` writes nothing: a correct flag produces a success message, and the `locked`
  code stays as it was (`Unlock.UnlockWith`).
- `del` and `tap` leave the parent's record as it was. `copy` carries the entry to the
  destination's parent record and, for a move, deletes it from the source's.

## Model

| member | source | states |
|---|---|---|
| Paths.Split | src/commands/read.rs:18 | splitting text at `/` gives at least one piece, none holding a slash |
| Paths.Keep | src/commands/read.rs:18 | the kept pieces are well-formed components, no more than the pieces |
| Paths.Comps | src/commands/read.rs:18 | the components of a path written as text are well formed |
| Paths.Join | src/commands/read.rs:18 | an absolute argument replaces the base; a relative one is appended to it, `..` kept |
| Paths.Parent | src/commands/go.rs:30 | the root has no parent; otherwise the parent followed by the last component is the path |
| Paths.FileName | src/commands/copy.rs:105-114 | a path has a file name iff it is not the root and does not end in `..`, and the name is its last component |
| Paths.StripPrefix | src/commands/whereami.rs:5 | stripping succeeds iff the base is a component-wise prefix, and the base followed by the rest is the path |
| Paths.Display | src/commands/whereami.rs:13 | an absolute path displays starting with `/` |
| Paths.RelativeDisplay | src/commands/whereami.rs:4-19 | a path under the root displays starting with `HOME`; any other path displays as itself |
| Paths.SplitJoin | src/commands/whereami.rs:10 | joining slash-free pieces with `/` and splitting again gives the pieces back |
| Paths.DisplayRoundTrip | src/commands/whereami.rs:13 | reading back a displayed path gives its components |
| Paths.RelativeDisplayRoundTrip | src/commands/whereami.rs:4-19 | what `display_relative_path` prints reads back as `HOME` followed by the components below the root, or as the path itself outside the root |
| Paths.Whereami | src/commands/whereami.rs:17-19 | `whereami` starts with `HOME` inside the world and reads `HOME` exactly at the world root |
| ArgParser.NewParser | src/commands/argparser.rs:11-16 | the parser accepts exactly the given flags and holds no arguments |
| ArgParser.Parse | src/commands/argparser.rs:19-43 | the flag set is kept; the parse succeeds iff no argument is a help flag or an unaccepted word starting with `-`, and then stores every argument in order; otherwise it stops at the first rejected argument, having stored those before it, with "help" or "unknown" |
| ArgParser.Positional | src/commands/argparser.rs:51-56 | the positional arguments are exactly the stored arguments not starting with `-` |
| ArgParser.PositionalAppend | src/commands/argparser.rs:51-56 | positional selection distributes over concatenation, so it keeps the arguments' order |
| ArgParser.PositionalOfPlain | src/commands/argparser.rs:51-56 | when no argument starts with `-`, all of them are positional, in order |
| Security.I32 | src/rns/security.rs:26-28 | an `as i32` cast lands in the signed 32-bit range, differs from its argument by a multiple of 2^32, and is the identity on values already in range |
| Security.TRem | src/rns/security.rs:30 | Rust's `%` truncates toward zero: the remainder is smaller than the divisor in magnitude, agrees with Euclidean `%` for non-negative dividends and is never positive for non-positive ones |
| Security.BaseMult | src/rns/security.rs:25-28 | the unadjusted multiplier `(len(s1) + s1[len(s2) % len(s1)]) · len(s2)` is defined only for a non-empty first string (otherwise a division by zero) and always fits in `i32` after the cast |
| Security.Product | src/rns/security.rs:25-27 | the multiplier before the cast is never negative |
| Security.AdjustAsWrittenArms | src/rns/security.rs:30-35 | every arm of the adjustment other than the multiple-of-5 arm yields a value coprime to 95; the multiple-of-5 arm does so exactly when the input is not 18 mod 19 |
| Security.FirstArmAsWritten | src/rns/security.rs:30-31 | a multiple of 5 (that does not wrap) is moved to its successor, which is coprime to 95 iff the input is not 18 mod 19 |
| Security.OtherArmsAsWritten | src/rns/security.rs:32-35 | a value that is not a multiple of 5 leaves the adjustment coprime to 95 |
| Security.AdjustAsWritten | src/rns/security.rs:30-35 | the adjustment as written raises a multiplier that does not wrap by at most 2, and leaves one with no factor 5 or 19 unchanged |
| Security.Adjust | src/rns/security.rs:30-35 | the corrected adjustment likewise raises a multiplier that does not wrap by at most 2, and leaves one with no factor 5 or 19 unchanged |
| Security.AdjustAsWrittenMisses | src/rns/security.rs:30-31 | the adjustment takes 75 to 76 = 4 · 19, which shares a factor with 95 |
| Security.AdjustCoprime | src/rns/security.rs:30-35 | the corrected adjustment always yields a value coprime to 95, at most 2 above its input |
| Security.AdjustDiffers | src/rns/security.rs:30-35 | the corrected and the written adjustment differ exactly on multiples of 5 that are 18 mod 19 |
| Security.AdjustFixes75 | src/rns/security.rs:30-35 | the corrected adjustment takes 75 to 77, coprime to 95 |
| Security.MultiplesDistinct | src/rns/security.rs:36-38 | for a multiplier coprime to 95, `i ↦ (i · m) % 95` is injective on 1..95 |
| Security.Pigeonhole | src/rns/security.rs:36-40 | 95 distinct values in a range of 95 take every value of it (used for the permutation) |
| Security.Table | src/rns/security.rs:36-40 | the key table has exactly 95 pairs whose first components are 32, 33, …, 126 in order |
| Security.TableSeconds | src/rns/security.rs:38 | without wrap-around the second component of row `j` is `((j + 1) · m) % 95 + 32`, within 32..126 |
| Security.TablePermutes | src/rns/security.rs:36-40 | for a multiplier coprime to 95 the second column is a permutation of 32..126: distinct, in range, and covering every value |
| Security.CharOf | src/rns/security.rs:49-50 | `char::from_u32(..).unwrap_or('\u{FFFD}')` returns the character with that code for every code below the surrogates |
| Security.Characterise | src/rns/security.rs:43-54 | the character key has one pair per table row, each the characters of that row |
| Security.CharacteriseSwapped | src/rns/security.rs:56-67 | the decryption key has one pair per table row |
| Security.Swap | src/rns/security.rs:56-67 | turning every pair round keeps the length and swaps each pair |
| Security.GenKey | src/rns/security.rs:24-42 | `gen_encryption_key` as written, adjustment included, always returns 95 rows |
| Security.GenKeyCorrected | src/rns/security.rs:24-42 | with the corrected adjustment the table still has 95 rows |
| Security.EncKey | src/rns/security.rs:43-54 | the program's `characterise_enc_key` has 95 pairs whose firsts are the characters 32..126 in order |
| Security.EncKeyCorrected | src/rns/security.rs:24-54 | the key under the corrected adjustment has the same shape: 95 pairs, firsts 32..126 in order |
| Security.DecKey | src/rns/security.rs:56-67 | `characterise_dec_key` has 95 pairs |
| Security.DecKeyIsSwap | src/rns/security.rs:43-67 | the decryption key is the encryption key with every pair turned round |
| Security.Forward | src/rns/security.rs:72-76 | a character is replaced by the partner in the first pair that starts with it, and kept when no pair does |
| Security.Backward | src/rns/security.rs:84-88 | a character is replaced by the partner in the first pair that ends with it, and kept when no pair does |
| Security.Encrypt | src/rns/security.rs:69-79 | `encrypt` keeps the length and maps every character independently through the key |
| Security.Decrypt | src/rns/security.rs:81-91 | `decrypt` keeps the length and maps every character independently back through the key |
| Security.ForwardSwap | src/rns/security.rs:56-91 | looking a character up forwards in the turned-round key is looking it up backwards in the key |
| Security.EncryptWithDecKey | src/rns/security.rs:56-91 | encrypting with `characterise_dec_key` equals decrypting with `characterise_enc_key`, for every text and with no bijection needed |
| Security.CharacteriseBijective | src/rns/security.rs:36-54 | a table built from a multiplier coprime to 95 (without wrap) gives a bijection of printable ASCII |
| Security.EncKeyCorrectedBijective | src/rns/security.rs:24-54 | with the corrected adjustment every pair of strings whose multiplier does not wrap yields a bijective key |
| Security.MissedNotBijective | src/rns/security.rs:30-40 | a multiplier that is a multiple of 5 and 18 mod 19 becomes a multiple of 19, and the rows for 1 and 6 of its table get the same character, so the key is not a bijection |
| Security.EncKeyBijectiveIff | src/rns/security.rs:24-54 | the program's key of two strings whose multiplier does not wrap is a bijection exactly when the multiplier is not a multiple of 5 that is 18 mod 19 |
| Security.BijectiveLookups | src/rns/security.rs:69-91 | in a bijective key a printable character's forward pair is the one at its code minus 32 and it has a backward pair; no pair mentions an unprintable character |
| Security.DecryptEncrypt | src/rns/security.rs:69-91 | under a bijective key `decrypt(k, encrypt(k, t)) == t` for every text |
| Security.EncryptDecrypt | src/rns/security.rs:69-91 | under a bijective key `encrypt(k, decrypt(k, t)) == t` for every text |
| Security.UnprintableUnchanged | src/rns/security.rs:69-91 | under a bijective key, characters outside 32..126 pass both directions unchanged |
| Security.EncryptKeepsUnprintable | src/rns/security.rs:69-79 | whatever the strings, `encrypt` with their key leaves every character outside 32..126 unchanged |
| Security.ExampleMultiplier | src/rns/security.rs:25-31 | for "AAAAAAAAAA" and "x" the multiplier is 75 and the written adjustment makes it 76 |
| Security.Table76Collides | src/rns/security.rs:36-40 | with multiplier 76 both '$' and '~' encrypt to ' ', and ' ' decrypts to '$' |
| Security.AsWrittenRoundTripFails | src/rns/security.rs:24-91 | with the written adjustment, the key of "AAAAAAAAAA" and "x" encrypts "~" to " ", which decrypts to "$": the round trip fails |
| Flags.KeyOf | src/rns/security.rs:24-54 | a key exists exactly when the first string is non-empty (otherwise the index divides by zero) and both byte lengths fit in `i32`, and it is the program's `characterise_enc_key`, adjustment as written |
| Flags.FlagKey | src/commands/solve.rs:146-150 | the flag key of `<user>_<byte length>` and `<user>_<level>` exists exactly when both byte lengths fit in `i32`, since the first string is never empty, and has 95 pairs |
| Flags.Payload | src/commands/solve.rs:135-145 | the text recovered from `decrypt_me` is as long as `decrypt_me`, and exists exactly when both keys of the chain exist |
| Flags.SolveFlag | src/commands/solve.rs:135-153 | the issued flag is as long as `decrypt_me`, and exists exactly when the payload and the user's flag key exist |
| Flags.CheckLevel | src/commands/unlock.rs:200-224 | `check_level` is defined exactly when both salts parse and both keys exist, and then holds iff `compare_me` decrypted under (level salt, level) equals the user-salt hash of the level-salt hash of the decrypted flag |
| Flags.CheckChest | src/commands/unlock.rs:225-242 | `check_chest` is defined exactly when both salts parse and the key exists, and then holds iff the flag's hash encrypted under (chest name, hash) equals `compare_me` |
| Flags.AsciiKeyDefined | src/rns/security.rs:25-27 | two ASCII strings of which the first is non-empty always give a key |
| Flags.FlagRecoversPayload | src/commands/solve.rs:146-152 | decrypting a solve-issued flag with the flag key that `check_level` uses recovers the payload solve encrypted, whenever that key is a bijection |
| Flags.SolvedFlagUnlocks | src/commands/unlock.rs:213-223 | for a user and level whose program flag key is a bijection, `check_level` accepts the flag solve issued exactly when `compare_me` decrypts to the double hash of the payload |
| Flags.FlagKeyBijectiveIff | src/commands/solve.rs:146-150 | for strings that do not wrap the flag key exists, and it is a bijection exactly when its multiplier is not a multiple of 5 that is 18 mod 19 |
| Flags.LevelAcceptedSeal | src/commands/unlock.rs:213-223 | when `check_level` accepts and its key is a bijection, `compare_me` is the double hash sealed under the key of (level salt, level) |
| Flags.ChestAcceptedSeal | src/commands/unlock.rs:236-241 | when `check_chest` accepts and its key is a bijection, `compare_me` decrypts back to the flag's hash |
| Flags.ChestIgnoresUser | src/commands/unlock.rs:225-242 | which user asks does not affect `check_chest`, as long as their salt parses |
| Solve.CheckSolveInput | src/commands/solve.rs:117-159 | `check_solve_input` reports the missing-`decrypt_me` error exactly when the parent record reads but the entry has no string `decrypt_me`; it panics exactly when the target has no parent, the record does not read, or a key divides by zero; an issued flag is `SolveFlag` of the answer and `decrypt_me`, as long as `decrypt_me` |
| Solve.SolveWith | src/commands/solve.rs:36-107 | zero or several positional arguments and a missing target are refused; a non-level, a locked level and an unreadable lock are each refused with their own message before any prompt; the answer is asked for only for one named, existing target, and an empty answer gives an error |
| Solve.SolveFlagIssued | src/commands/solve.rs:57-99 | a flag is printed only for a target that reads as an unlocked level and a non-empty answer; it is the flag derived from the answer and `decrypt_me` for the logged-in user or `default_user`, and as long as `decrypt_me` |
| Solve.Solve | src/commands/solve.rs:17-115 | with no `-` argument `solve` runs on its positional arguments; otherwise the first argument the parser rejects decides the reply: the help text for `-h`/`--help`, the parse error for any other flag |
| Unlock.UnlockLocked | src/commands/unlock.rs:115-186 | the flag is asked for exactly when `obj_salt` and `decrypt_me` are present strings; with all three properties present, a panic comes only from the cryptography (a salt that does not parse or an empty key string) |
| Unlock.Judge | src/commands/unlock.rs:200-242 | a level or chest is judged only when both salts parse; otherwise the check panics |
| Unlock.UnlockWith | src/commands/unlock.rs:43-191 | an unauthenticated user is refused before any path access; anything but one positional argument, a missing target, a locked chain above the target's parent, an unreadable status and an unlocked target are each refused before the flag prompt; the prompt names the target and appears only for a locked target |
| Unlock.LockedHasSecrets | src/commands/unlock.rs:115-151 | when `read_lock_perm` reports locked, the validated parent record holds `obj_salt`, `decrypt_me` and `compare_me` for the target, so the indexing cannot panic |
| Unlock.UnlockPanicsOnlyInCrypto | src/commands/unlock.rs:62-186 | `unlock` panics only at the filesystem root, which has no parent, or inside `check_level`/`check_chest` |
| Unlock.UnlockSucceeds | src/commands/unlock.rs:153-186 | the literal success texts appear only for a logged-in user, a target that reads as locked below an unlocked chain, and a flag the level or chest check accepts; which text appears says whether it was a level |
| Unlock.LockedSucceeds | src/commands/unlock.rs:153-186 | a success text of the tail means the check accepted the typed flag, and the level text appears exactly for a level |
| Unlock.UnlockCommand | src/commands/unlock.rs:23-198 | when no argument is rejected by the parser, `unlock` runs on its positional arguments (`-l`, `--level`, `-c` and `--chest` are accepted and ignored); otherwise the first rejected argument decides: `-h`/`--help` gives the help text and any other flag the parse error |
| InfoReader.WithLocked | src/metainfo/info_reader.rs:25-30 | `ObjectInfo::with_locked` holds exactly the one property `locked` |
| InfoReader.ToJson | src/metainfo/info_reader.rs:47-56 | a record serialises to an object with exactly the fields `location`, `about` and `objects` |
| InfoReader.FromJson | src/metainfo/info_reader.rs:47-56 | a document parses (with unknown fields denied) exactly when it has those three fields, two strings and an object of objects |
| InfoReader.FromToJson | src/metainfo/info_reader.rs:47-56 | a record survives serialisation and parsing unchanged |
| InfoReader.ToFromJson | src/metainfo/info_reader.rs:47-56 | a document that parses is the serialisation of what it parses to |
| InfoReader.TrimValue | src/metainfo/info_reader.rs:189-193 | a string property is trimmed and any other property is kept |
| InfoReader.TrimStrings | src/metainfo/info_reader.rs:188-193 | trimming the properties keeps the keys and trims exactly the string values |
| InfoReader.Nth | src/metainfo/info_reader.rs:160 | `s.chars().nth(i)` is the `i`-th character when there is one, and nothing otherwise |
| InfoReader.NormalizeBagSpec | src/metainfo/info_reader.rs:148-194 | an object passes exactly when a string `locked` is a two-bit string and, with the second bit `1`, the object carries `decrypt_me`, `obj_salt` and `compare_me`; a `locked` that is missing or not a string is not checked; a passing object with second bit `0` is kept untrimmed, every other one has its strings trimmed |
| InfoReader.NormalizeBag | src/metainfo/info_reader.rs:148-194 | normalising an object never adds a property, and an object without a string `locked` always passes |
| InfoReader.StrayDecryptMeSurvives | src/metainfo/info_reader.rs:159-185 | an object with `locked` "00" is kept exactly as written, so a stray `decrypt_me` survives; the removal branch cannot be reached |
| InfoReader.TrimStringsIdempotent | src/metainfo/info_reader.rs:188-193 | trimming the properties twice is trimming them once |
| InfoReader.NormalizeBagIdempotent | src/metainfo/info_reader.rs:148-194 | normalising an accepted object again gives it back |
| InfoReader.ProcessInfo | src/metainfo/info_reader.rs:143-197 | the checks after parsing succeed exactly when both trimmed text fields are non-empty and every object passes; the result holds the trimmed fields, the same object names and each object normalised; an empty `objects` map is allowed |
| InfoReader.ProcessInfoValid | src/metainfo/info_reader.rs:143-197 | every record the reader returns is valid |
| InfoReader.ProcessInfoOfValid | src/metainfo/info_reader.rs:143-197 | a valid record passes the reader's checks unchanged |
| InfoReader.ProcessInfoIdempotent | src/metainfo/info_reader.rs:143-197 | reading a record the reader produced gives it back |
| InfoReader.ReadValidateInfo | src/metainfo/info_reader.rs:135-198 | `read_validate_info` reports NotFound exactly when nothing exists at the path; what it returns is valid and comes from a stored document that parses |
| InfoReader.WriteInfo | src/metainfo/info_reader.rs:224-225 | writing a record stores its serialised document, and fails exactly when the write fails |
| InfoReader.WriteThenRead | src/metainfo/info_reader.rs:224-225 | after a successful write the path holds exactly the document written |
| InfoReader.ReadAfterWrite | src/metainfo/info_reader.rs:135-198 | reading a record back after writing it gives what the reader makes of the record |
| InfoReader.WriteInfoStored | src/metainfo/info_reader.rs:224-225 | the stored document after a write parses back to the record written |
| InfoReader.ValidRoundTrip | src/metainfo/info_reader.rs:135-198 | a valid record written is read back unchanged |
| InfoReader.DefaultLocation | src/metainfo/info_reader.rs:88-94 | the default location is `HOME` for the home directory and otherwise the path relative to the world directory |
| InfoReader.DefaultAbout | src/metainfo/info_reader.rs:82-87 | the default text is "You are in '<location>'. Look around and explore!" |
| InfoReader.DefaultObjects | src/metainfo/info_reader.rs:96-116 | the default objects are exactly the listed entries other than `.dir_info` of a directory (none otherwise), each `{"locked":"00"}` |
| InfoReader.DefaultInfo | src/metainfo/info_reader.rs:72-80 | the default record has the default location, text and objects of the normalised path |
| InfoReader.DefaultAboutTrimmed | src/metainfo/info_reader.rs:82-87 | the default text is non-empty and already trimmed |
| InfoReader.DefaultBagNormal | src/metainfo/info_reader.rs:148-163 | the unlocked default object passes the reader unchanged |
| InfoReader.AddObj | src/metainfo/info_reader.rs:203-229 | `add_obj_to_info` succeeds only after the record reads and validates, fails when it does not, and writes nothing when the name is already listed |
| InfoReader.AddObjReadBack | src/metainfo/info_reader.rs:213-226 | after adding a name the record did not list, the stored record lists it with the given properties (or unlocked) and keeps the other fields and objects of the validated record |
| InfoReader.Added | src/metainfo/info_reader.rs:215-222 | the record written on an add has the old names plus the new one, with the old objects unchanged |
| InfoReader.RecordStored | src/metainfo/info_reader.rs:224-225 | a record written is stored as its document, which parses back to it |
| InfoReader.DelObj | src/metainfo/info_reader.rs:232-245 | `del_obj_from_info` succeeds only after the record validates, and writes nothing when the name is not listed |
| InfoReader.DelObjReadBack | src/metainfo/info_reader.rs:238-244 | after `del_obj_from_info` the record reads back as the validated record without exactly that name |
| InfoReader.DelObjWrites | src/metainfo/info_reader.rs:240-243 | deleting a listed name stores the validated record minus that name |
| InfoReader.DelObjNoop | src/metainfo/info_reader.rs:240 | deleting a name not listed leaves the world unchanged |
| InfoReader.Deleted | src/metainfo/info_reader.rs:240-243 | the record written on a delete lacks the name, keeps every other object and both text fields, and stays valid if it was |
| InfoReader.UpdateObj | src/metainfo/info_reader.rs:254-281 | `update_obj_status` succeeds only after the record validates |
| InfoReader.UpdateObjReadBack | src/metainfo/info_reader.rs:265-278 | after `update_obj_status` the stored document parses to a record whose named object carries the new value under the key, keeps its other properties, and leaves every other object as the reader saw it; the names are the old ones plus this one |
| InfoReader.Updated | src/metainfo/info_reader.rs:268-274 | the record written on an update sets one key on one object and touches nothing else |
| InfoReader.GetObjInfo | src/metainfo/info_reader.rs:285-292 | `read_get_obj_info` succeeds exactly when the record reads, returns the stored object or an empty bag for an untracked name, and passes the reader's error through |
| InfoReader.GetEncryptedFlag | src/metainfo/info_reader.rs:294-313 | `get_encrypted_flag` succeeds exactly when the parent record reads and the object has a string `decrypt_me`, and returns that string |
| LockPerm.DecodeBits | src/metainfo/lock_perm.rs:38-50 | the character loop succeeds exactly on two binary digits and returns (first is '1', second is '1') |
| LockPerm.ReadLockPerm | src/metainfo/lock_perm.rs:13-51 | `read_lock_perm` succeeds exactly when the path has a parent whose record validates, a name, and a string `locked` entry that is two binary digits; the pair is then (first is '1', second is '1') |
| LockPerm.FormatErrorsUnreachable | src/metainfo/lock_perm.rs:34-46 | the length and format errors never occur, because the record would already have failed validation |
| LockPerm.BitOrderAgainstDoc | src/metainfo/lock_perm.rs:6-50 | an object stored with "10", locked by the documented bit order, reads as a level that is not locked |
| LockPerm.FirstOnChainSpec | src/metainfo/lock_perm.rs:62-80 | the walk finds the longest non-empty prefix of the path that reads as locked, and finds nothing exactly when none does |
| LockPerm.OperationLockedPermSpec | src/metainfo/lock_perm.rs:56-110 | the operation is refused exactly when some path on the chain to `/` (past the world root) reads as locked; the refusal names the deepest such path as "<operation>: <relative path> is locked. <message>"; an unreadable status never refuses |
| LockPerm.FinalCheckRedundant | src/metainfo/lock_perm.rs:82-109 | the closing check of the object never changes the outcome of the walk |
| LockPerm.FirstOnChain | src/metainfo/lock_perm.rs:61-80 | the walk up the chain stops, if anywhere, at a non-empty prefix of the path that reads as locked |
| LockPerm.Denial | src/metainfo/lock_perm.rs:71-76 | a refusal starts with the operation name and `: ` and ends with "is locked." and the caller's message |
| LockPerm.OperationLockedPerm | src/metainfo/lock_perm.rs:55-110 | every refusal of `operation_locked_perm` names the operation first and ends with the caller's message |
| ValidSekai.CurrentEntries | src/metainfo/valid_sekai.rs:38-46 | the current entries are the listed names other than `.dir_info`, and none when the directory cannot be listed |
| ValidSekai.Retain | src/metainfo/valid_sekai.rs:60-75 | `HashMap::retain` keeps exactly the keys in the set, with their values |
| ValidSekai.Merge | src/metainfo/valid_sekai.rs:49-71 | the merged objects are the surviving entries of current names plus a default entry for each current name the record lacks; surviving entries are unchanged; non-blank text fields are kept |
| ValidSekai.MergeKeepsValidText | src/metainfo/valid_sekai.rs:52-57 | the fill-in of empty text fields never fires for a record that was read successfully |
| ValidSekai.ExistingInfo | src/metainfo/valid_sekai.rs:19-24 | the existing record is used exactly when the record file exists and reads and validates |
| ValidSekai.Reconciled | src/metainfo/valid_sekai.rs:48-80 | the record written never lists `.dir_info`, lists only current names and every current default name; without an existing record it is the default record |
| ValidSekai.CreateDirInfo | src/metainfo/valid_sekai.rs:10-105 | a directory named `.dir_info` is accepted unchanged with true; a failure to create `.dir_info` gives false and no change; on success `.dir_info` was created and the reconciled record written |
| ValidSekai.DefaultLocationNotBlank | src/metainfo/info_reader.rs:88-94 | a default location is never blank |
| ValidSekai.DefaultObjectsNormal | src/metainfo/info_reader.rs:96-116 | every default entry passes the reader unchanged |
| ValidSekai.MergeValid | src/metainfo/valid_sekai.rs:49-71 | merging a valid record with defaults yields a valid record |
| ValidSekai.CreateDirInfoStored | src/metainfo/valid_sekai.rs:82-104 | after a successful `create_dir_info` what reads back is what the reader makes of the reconciled record |
| ValidSekai.CreateDirInfoMerges | src/metainfo/valid_sekai.rs:49-71 | for a record that read before, what reads back keeps its text and the entries of names still present, drops vanished names, adds `{"locked":"00"}` for each untracked current name, and never lists `.dir_info` |
| ValidSekai.MergedReadsBack | src/metainfo/valid_sekai.rs:49-104 | for a record that read before, the merged record is exactly what reads back |
| ValidSekai.CreateDirInfoReplaces | src/metainfo/valid_sekai.rs:72-79 | a record that was missing or failed to read is discarded: what reads back is the default record (location `HOME` iff home, the default text) restricted to current names, every entry unlocked |
| ValidSekai.MergeFixpoint | src/metainfo/valid_sekai.rs:49-71 | a record that already lists exactly the current names (and every untracked default) is what the merge returns |
| ValidSekai.ReconciledValid | src/metainfo/valid_sekai.rs:48-80 | the reconciled record is valid when the default location has no surrounding white space |
| ValidSekai.FirstRun | src/metainfo/valid_sekai.rs:26-96 | the first run in a stored directory creates `.dir_info` as a directory and stores the record as a document |
| ValidSekai.ListingUnchanged | src/metainfo/valid_sekai.rs:38-46 | storing the record file leaves the directory's listing, current entries and defaults unchanged |
| ValidSekai.SecondRun | src/metainfo/valid_sekai.rs:10-105 | a run over a directory whose record already covers exactly its current names rewrites the same record and changes nothing |
| ValidSekai.FirstRunReadsBack | src/metainfo/valid_sekai.rs:19-96 | after the first run, the existing record a second run reads is the record written |
| ValidSekai.FirstRunCovers | src/metainfo/valid_sekai.rs:59-68 | the record the first run writes covers exactly the current names as the second run sees them |
| ValidSekai.CreateDirInfoKeepsDir | src/metainfo/valid_sekai.rs:10-105 | `create_dir_info` keeps a directory a directory |
| ValidSekai.CreateDirInfoIdempotent | src/metainfo/valid_sekai.rs:10-105 | reconciliation is idempotent: run again on the world it produced, `create_dir_info` succeeds and changes nothing |
| ValidSekai.FirstRunStored | src/metainfo/valid_sekai.rs:26-96 | a successful first run leaves `.dir_info` a directory holding the record that reads back, which is the reconciled record |
| ValidSekai.FirstRunEntries | src/metainfo/valid_sekai.rs:59-68 | the record a first run writes lists exactly the entries a second run keeps |
| ValidSekai.WalkOkIff | src/metainfo/valid_sekai.rs:162-201 | the walk's flag is true exactly when it completed and every reconciliation it made succeeded |
| ValidSekai.WalkChildrenOkIff | src/metainfo/valid_sekai.rs:190-197 | the loop's flag is the conjunction over the children's walks |
| ValidSekai.WalkFirst | src/metainfo/valid_sekai.rs:165-187 | a `.dir_info` directory is skipped with true; otherwise the directory is reconciled first, whether or not its record exists, with the given home flag; a failed directory is the only visit |
| ValidSekai.WalkBelow | src/metainfo/valid_sekai.rs:162-201 | a walk visits only the directory itself and directories below it |
| ValidSekai.WalkChildrenBelow | src/metainfo/valid_sekai.rs:190-197 | the loop visits only directories strictly below the parent |
| ValidSekai.WalkHome | src/metainfo/valid_sekai.rs:177-194 | only the first visit of a walk carries the home flag it was given; every later one is a non-home directory |
| ValidSekai.WalkChildrenNoHome | src/metainfo/valid_sekai.rs:194 | every visit of the loop is made as a non-home directory |
| ValidSekai.WalkDescends | src/metainfo/valid_sekai.rs:189-197 | when the reconciliation succeeds and the listing reads, the walk is the directory's visit followed by the loop over its entries |
| ValidSekai.WalkStops | src/metainfo/valid_sekai.rs:177-190 | otherwise the walk visits the directory alone and returns its reconciliation's flag |
| ValidSekai.Walk | src/metainfo/valid_sekai.rs:162-201 | a walk that reports success ran to completion |
| ValidSekai.WalkChildren | src/metainfo/valid_sekai.rs:190-197 | a loop over the entries that reports success ran to completion |
| ValidSekai.WorldAt | src/metainfo/valid_sekai.rs:191-196 | the loop starts in the world it was given |
| ValidSekai.SiblingsVisited | src/metainfo/valid_sekai.rs:191-196 | every listed entry that is a directory when the loop reaches it is visited, whatever happened to the entries before it |
| ValidSekai.ValidateOrCreateSekai | src/metainfo/valid_sekai.rs:110-123 | a path that is missing or not a directory fails with no change |
| ValidSekai.ValidateOrCreateSekaiHome | src/metainfo/valid_sekai.rs:108-144 | success requires a directory, and with `home_check` the result is `create_dir_info` of the root alone as the home |
| ValidSekai.ValidateOrCreateSekaiWalk | src/metainfo/valid_sekai.rs:146-158 | without `home_check` the result is the walk from the root: true exactly when it completes with every reconciliation succeeding, the root first as the home, every visit at or below the root |
| Snapshot.Packed | src/utils/restore_comp.rs:46-61 | the archive holds every entry strictly below the root, keyed by its relative path and unchanged, except the archive being written; `.dir_info/info.json` and the other archive are included |
| Snapshot.Backup | src/utils/restore_comp.rs:20-68 | a failure to create `.dir_info` fails with no change; an invalid usage fails with `InvalidInput` after `.dir_info` was created; a backup that writes stores the packed archive at the archive path |
| Snapshot.Unpack | src/utils/restore_comp.rs:110-113 | unpacking writes every archived entry at its place below the root and keeps every other entry |
| Snapshot.Restore | src/utils/restore_comp.rs:70-84 | an invalid usage fails with `InvalidInput` and no change; a missing archive fails before anything is deleted, where the source fails at its temporary copy |
| Snapshot.ArchiveLocate | src/utils/restore_comp.rs:120-126 | an archive path resolves to itself when `.dir_info` is a stored directory and names nothing otherwise |
| Snapshot.ClearOneEntry | src/utils/restore_comp.rs:102-106 | clearing a root entry other than `.dir_info` removes it together with everything below it |
| Snapshot.ClearOneDirInfo | src/utils/restore_comp.rs:90-100 | clearing `.dir_info` removes `save_me` in a full restore and nothing otherwise |
| Snapshot.ClearOne | src/utils/restore_comp.rs:87-106 | one pass of the clearing loop only removes, and succeeds on an entry other than `.dir_info` only when it exists |
| Snapshot.Clear | src/utils/restore_comp.rs:86-107 | the clearing loop, even when it stops at a failure, only removes: whatever remains is unchanged |
| Snapshot.ClearStep | src/utils/restore_comp.rs:86-107 | one pass of the clearing loop removes exactly the doomed paths of its entry |
| Snapshot.WithoutWF | src/utils/restore_comp.rs:86-107 | removing the doomed paths keeps the tree well formed |
| Snapshot.ClearSpec | src/utils/restore_comp.rs:86-107 | the clearing loop over distinct root entries removes exactly the doomed paths and nothing else |
| Snapshot.ListedEntries | src/utils/restore_comp.rs:86 | the listing of a stored root names each entry exactly once, and every path below the root starts with a listed name |
| Snapshot.ClearListed | src/utils/restore_comp.rs:86-107 | clearing the listed entries of the root removes exactly their doomed paths |
| Snapshot.RestoreSteps | src/utils/restore_comp.rs:70-118 | when reading, listing and clearing succeed, `restore_sekai` is the unpacking of the archive over the cleared tree |
| Snapshot.RestoreWorld | src/utils/restore_comp.rs:70-118 | restoring from an intact archive clears the listed entries and unpacks the archive |
| Snapshot.RestoredOutside | src/utils/restore_comp.rs:86-113 | after clearing and unpacking, outside `.dir_info` exactly the archived entries lie below the root |
| Snapshot.RestoredKept | src/utils/restore_comp.rs:90-113 | entries of `.dir_info` the archive does not hold survive, except the `save_me` a full restore deletes; nothing outside the root changes |
| Snapshot.RestoreSpec | src/utils/restore_comp.rs:70-118 | a restore from an archive succeeds, leaves outside `.dir_info` exactly the archived entries, keeps the `.dir_info` entries the archive lacks (save for `save_me` on a full restore), and changes nothing outside the root |
| Snapshot.DirInfoCreated | src/utils/restore_comp.rs:21-22 | creating the root's `.dir_info` adds at most that directory |
| Snapshot.DirInfoPresent | src/utils/restore_comp.rs:21-22 | creating an existing `.dir_info` changes nothing |
| Snapshot.InvalidUsageRejected | src/utils/restore_comp.rs:24-80 | any usage but "restore" or "save" fails with `InvalidInput` in both functions, and the backup has created `.dir_info` by then |
| Snapshot.ArchiveExists | src/utils/restore_comp.rs:120-126 | below a stored root an archive exists exactly when it is stored |
| Snapshot.BackupSkips | src/utils/restore_comp.rs:35-38 | with `.dir_info` in place and a restore point present, a "restore" backup reports skipping and changes nothing |
| Snapshot.RestorePointKept | src/utils/restore_comp.rs:35-38 | an existing restore point is never overwritten |
| Snapshot.BackupWrites | src/utils/restore_comp.rs:40-67 | a backup that writes reports the archive path and leaves the written world |
| Snapshot.ArchiveWritten | src/utils/restore_comp.rs:40 | writing an archive into an existing `.dir_info` stores it there |
| Snapshot.BackupSpec | src/utils/restore_comp.rs:20-126 | a backup stores every entry below the root (as after `.dir_info` was created) except the archive itself at the archive path; afterwards `can_restore` or `can_save` holds; "save" always rewrites `save_me` |
| Snapshot.PackedOutside | src/utils/restore_comp.rs:46-61 | outside `.dir_info` the archive holds exactly the entries the tree had below the root |
| Snapshot.SnapshotRoundTrip | src/utils/restore_comp.rs:20-118 | backing up and later restoring from the same intact archive brings back every entry outside `.dir_info` exactly as it was at backup time, whatever happened in between |
| RestoreCmd.RestoreWith | src/commands/restore.rs:20-80 | positional arguments are refused before any prompt; otherwise the confirmation is asked; only a confirmed run changes the world; with force, `restore_me` is restored from when present and created otherwise; without force, `save_me` is restored from when present and otherwise only a hint is returned; archive failures are reported as "restore: Failed to …" |
| RestoreCmd.SaveWith | src/commands/save.rs:20-32 | positional arguments are refused; otherwise `save_me` is written afresh and success is reported exactly when the backup succeeded |
| RestoreCmd.DeclinedRestoreChangesNothing | src/commands/restore.rs:30-63 | declining the confirmation returns "Restore cancelled by user." and leaves the world as it was |
| RestoreCmd.ForcedRestoreCreatesPoint | src/commands/restore.rs:48-57 | a forced restore without a restore point creates one holding the root's entries and reports the backup |
| RestoreCmd.ForcedBackup | src/commands/restore.rs:48-57 | a forced restore without a restore point runs `backup_sekai("restore")` |
| RestoreCmd.ForcedRestoreRoundTrip | src/commands/restore.rs:29-58 | the restore point a first `restore -f` creates is what a later `restore -f` returns to, for every entry outside `.dir_info` |
| RestoreCmd.SaveRestoreRoundTrip | src/commands/restore.rs:59-76 | `save` followed later by a plain `restore` with `save_me` intact brings every entry outside `.dir_info` back to its state at `save` |
| RestoreCmd.NothingSavedNothingRestored | src/commands/restore.rs:76-79 | without saved progress a plain `restore` only answers with a hint |
| RestoreCmd.RestoreCommand | src/commands/restore.rs:14-88 | with no rejected flag the command runs with force iff `-f` or `--force` is given; otherwise the first rejected argument decides, with the world untouched: `-h`/`--help` gives the help text, an unknown flag its message |
| RestoreCmd.SaveCommand | src/commands/save.rs:13-40 | `save` accepts no flag: without one it is the parsed run; otherwise the first `-` argument decides, with the world untouched: `-h`/`--help` gives the help text, any other the parse error |
| Copy.PathArgs | src/commands/copy.rs:401-405 | the path arguments are exactly the arguments that are not valid flags, none added |
| Copy.PathArgsAppend | src/commands/copy.rs:401-405 | the path arguments of two argument lists written one after the other are those of the first followed by those of the second, so the filter keeps the order and every repetition |
| Copy.PathArgsOfPlain | src/commands/copy.rs:401-405 | a list in which no argument is a valid flag is its own path list, in the same order and with the same repetitions |
| Copy.PathArgsOfFlags | src/commands/copy.rs:401-405 | a list of valid flags alone has no path arguments |
| Copy.PathArgsSourceDest | src/commands/copy.rs:401-412 | with flags anywhere around them, two non-flag arguments are the path list in the order typed, the first the source and the second the destination |
| Copy.ValidatePaths | src/commands/copy.rs:47-92 | succeeds iff both normalised joins lie under the root and the source exists, yielding the two normalised paths; a source outside the root is reported first |
| Copy.Locks | src/commands/copy.rs:435-443 | passes iff neither the source nor the destination is locked, and a locked source's message is the one returned |
| Copy.MoveObjInfo | src/commands/copy.rs:95-133 | nothing changes when either path has no parent or name, or when the source's entry cannot be read from its parent record |
| Copy.MoveObjInfoCopies | src/commands/copy.rs:117-130 | a copy lists the destination name in its parent record with the source entry's properties, and keeps every other entry |
| Copy.MoveObjInfoKeepsTracked | src/commands/copy.rs:129-130 | a destination name the record already lists is left as it was |
| Copy.MoveObjInfoUntracked | src/commands/copy.rs:117-130 | a source the readable record does not list still gives the destination an entry with an empty property bag |
| Copy.MoveObjInfoRenames | src/commands/copy.rs:123-130 | a cut within one directory drops the old name and lists the new one with the old name's properties |
| Copy.MoveObjInfoCut | src/commands/copy.rs:123-130 | a cut whose source entry reads and whose two edits succeed is the deletion followed by the addition |
| Copy.AddObjAfterDel | src/commands/copy.rs:129-130 | after the addition the record lists the new name with the carried bag beside the entries it had |
| Copy.CopyOneFile | src/commands/copy.rs:136-169 | an existing destination without force is refused with no change; a success copied a file and reports "Copied/Moved <src> to <dest>" relative to the root |
| Copy.CopiedFromSame | src/commands/copy.rs:143-152 | the file copied after removing the destination was a file before the removal |
| Copy.CopyOneFileContents | src/commands/copy.rs:136-169 | after a successful copy without force the destination reads as the source did |
| Copy.FileCopied | src/commands/copy.rs:152 | `fs::copy` to a free destination makes it read as the source |
| Copy.CopyDirectory | src/commands/copy.rs:172-223 | an existing destination without force is refused with no change |
| Copy.CopyDirectoryShape | src/commands/copy.rs:179-215 | a directory copy without force leaves the original world, the world after creating the destination and carrying metadata, or the world its loop over the entries leaves |
| Copy.CopyDirectoryPreserves | src/commands/copy.rs:172-223 | a directory copy without force keeps every path that existed, and only record files may read differently |
| Copy.RenameOrCopy | src/commands/copy.rs:307-337 | a rename that succeeds is the whole step |
| Copy.MoveItem | src/commands/copy.rs:226-345 | in either variant (the program's is the as-written subdirectory step), a source named `.dir_info` is refused; a directory without `-r` is refused; an existing destination without force is refused; each refusal changes nothing |
| Copy.MoveSubdirAsWritten | src/commands/copy.rs:294-305 | the subdirectory step as written: a failure to create the destination is returned with no change |
| Copy.MoveSubdir | src/commands/copy.rs:294-305 | the corrected subdirectory step, without the second `remove_dir_all`: it succeeds exactly when the recursive move does, and leaves that move's world; what this means for a real tree is `Copy.MoveSubdirSucceeds` |
| Copy.MoveSubdirSucceeds | src/commands/copy.rs:294-305 | moving a subdirectory whose only entry is `.dir_info` to a free name in a stored directory without `-f`: the corrected step succeeds, leaves a directory at the destination and none at the source, while the step as written fails with "Use -f to overwrite" |
| Copy.MoveSubdirPrepared | src/commands/copy.rs:294-297 | after creating the free destination directory and its record and carrying the metadata, the tree is well formed, both source and destination are directories, and the source has no new entries besides `.dir_info` |
| Copy.MoveObjInfoAdds | src/commands/copy.rs:95-133 | carrying metadata keeps every path, changes only record files, adds only record files, and keeps the tree well formed |
| Copy.MoveItemRemovesSource | src/commands/copy.rs:240-315 | a successful directory move leaves no directory at the source |
| Copy.MoveItemEndsWithRemoval | src/commands/copy.rs:314-315 | a successful directory move ends with `remove_dir_all` of the source |
| Copy.RemovedIsGone | src/commands/copy.rs:305-315 | after `remove_dir_all` the path names no directory |
| Copy.AsWrittenNeedsForce | src/commands/copy.rs:245-304 | as written, moving a subdirectory without `-f` always fails with "Use -f to overwrite", because the destination was just created |
| Copy.AsWrittenRemovesTwice | src/commands/copy.rs:304-305 | as written, a subdirectory step whose recursive move succeeds still fails, because the second `remove_dir_all` finds nothing |
| Copy.MoveSubdirRemovesSource | src/commands/copy.rs:294-305 | corrected, a successful subdirectory step leaves no directory at its source |
| Copy.RecordWritePreserves | src/metainfo/info_reader.rs:224-225 | writing a directory's record replaces at most that record file |
| Copy.AddObjPreserves | src/metainfo/info_reader.rs:203-229 | adding an object entry changes at most its parent's record file |
| Copy.MoveObjInfoPreserves | src/commands/copy.rs:95-133 | carrying metadata for a copy keeps every path and changes at most one record file |
| Copy.CopyOneFilePreserves | src/commands/copy.rs:136-169 | a file copy without force only adds the new file and edits a record |
| Copy.MoveObjInfoKeepsFile | src/commands/copy.rs:155 | carrying metadata leaves a non-record destination reading the same |
| Copy.CopyEntriesPreserves | src/commands/copy.rs:200-215 | the loop of a directory copy without force keeps every path and changes only record files |
| Copy.CopyEntries | src/commands/copy.rs:200-215 | the loop of a directory copy passes over `.dir_info`: a listing of nothing else changes nothing |
| Copy.MoveEntries | src/commands/copy.rs:274-312 | the loop of a move passes over `.dir_info`: a listing of nothing else changes nothing |
| Copy.SubdirStep | src/commands/copy.rs:294-305 | the program's subdirectory step is the one as written; the corrected variant is the corrected step |
| Copy.AsWrittenLoopStops | src/commands/copy.rs:274-305 | as written, the move loop without `-f` fails with "Use -f to overwrite" at the first entry that is a subdirectory once its destination and record are created |
| Copy.Dispatch | src/commands/copy.rs:444-458 | without `-x`: a directory without `-r` is refused, and an existing destination without force is refused with the file or directory message; with `-x`: a directory without `-r` is refused with "Use -r for directories" |
| Copy.CopyWith | src/commands/copy.rs:399-466 | anything but two paths, or a restricted name, is answered with no prompt and no change; the force prompt is asked exactly when `-f` is given, and declining or a failed path check changes nothing; the world changes only after both paths validate and neither is locked, and then as the dispatched operation leaves it |
| Copy.CopyRefusesLocked | src/commands/copy.rs:435-443 | a locked source stops the command with its lock message and no change |
| Copy.CopyWithoutForceKeeps | src/commands/copy.rs:143-187 | a copy without `-f` and without `-x` never overwrites or removes anything: every path survives and only record files may read differently |
| Copy.CopyCommand | src/commands/copy.rs:369-474 | when no argument is a rejected flag the command is the parsed run; otherwise the first rejected argument decides, with the world untouched: `-h`/`--help` gives the help text, an unknown flag the unknown-flag message |
| Del.DeleteFile | src/commands/del.rs:25-44 | a missing path or a directory is answered with its message and no change; a file is removed, and nothing but that one stored entry goes |
| Del.DeleteDirectory | src/commands/del.rs:47-96 | a missing path or a non-directory is answered with no change; a directory holding more than `.dir_info` goes through `remove_dir_all` with force and `remove_dir` without |
| Del.RemoveReportedBelow | src/commands/del.rs:83-95 | the removal removes only paths at or below the target |
| Del.DirInfoRemovalBelow | src/commands/del.rs:71-72 | removing the directory's `.dir_info` first removes only paths below the directory |
| Del.DeleteDirectoryBelow | src/commands/del.rs:47-96 | a directory deletion removes only paths at or below the target and changes nothing else |
| Del.Delete | src/commands/del.rs:174-181 | a deletion that changes anything removes only the resolved target and what lies below it |
| Del.ValidateDeletionPath | src/commands/del.rs:99-128 | passes iff the normalised join lies under the root and exists, and yields that path; the root itself passes |
| Del.FirstPlain | src/commands/del.rs:152-155 | a non-empty target is an argument that does not start with `-` |
| Del.FirstPlainPositional | src/commands/del.rs:152-155 | the target is the first positional argument, or empty when there is none |
| Del.DelWith | src/commands/del.rs:151-185 | no target and a restricted target are answered without a prompt or a change; otherwise the confirmation is asked first, and declining or a failed path check changes nothing; the world changes only through the deletion of the validated path |
| Del.DelOnlyRemovesTarget | src/commands/del.rs:151-185 | whatever `del` does, it removes only the target and what lies below it |
| Del.DelKeepsParentRecord | src/commands/del.rs:151-185 | the record of the target's parent is left as it was, so the deleted object's entry stays listed there |
| Del.DelIgnoresLocks | src/commands/del.rs:172-181 | once confirmed, a file under the root is deleted whatever its lock code, with no lock check |
| Del.DelAfterConfirm | src/commands/del.rs:172-184 | once confirmed and validated, `del` answers and leaves what the deletion does |
| Del.ForcedDelOfRoot | src/commands/del.rs:110-178 | the root passes the path check, so a confirmed `del -f` of it removes everything below the root |
| Del.RootAdmitted | src/commands/del.rs:110 | the root lies under itself and is a directory |
| Del.ForcedDirDel | src/commands/del.rs:83-178 | a confirmed `del -f` of a valid directory removes it and everything below it |
| Del.ForceRemovesDir | src/commands/del.rs:83-84 | a forced directory deletion removes exactly the directory and what is below it |
| Del.DelCommand | src/commands/del.rs:131-192 | when no argument is a rejected flag the command is the parsed run; otherwise the first rejected argument decides, with the world untouched: `-h`/`--help` gives the help text, an unknown flag the unknown-flag message |
| Go.Restricted | src/commands/go.rs:41-47 | the restricted-name refusal is a message starting with `go: ` |
| Go.NoSuchDirectory | src/commands/go.rs:64 | the refusal for a path that does not canonicalise starts with `go: ` |
| Go.IsAFile | src/commands/go.rs:96 | the refusal for a file starts with `go: ` |
| Go.NotADirectory | src/commands/go.rs:111 | the refusal for something other than a file or directory starts with `go: ` |
| Go.Greeting | src/commands/go.rs:124-136 | the answer on entering a directory starts with "You have entered ", with or without the record's `about` |
| Go.Candidate | src/commands/go.rs:20-52 | `HOME`/`home` is the root; `..`/`back` is refused at the root and is the parent elsewhere; any other name is refused when restricted and otherwise joined to the current directory; every early answer is a refusal |
| Go.Check | src/commands/go.rs:54-122 | passes iff the candidate exists, canonicalises, lies under the root, is a directory and has no locked ancestor, and then yields the canonical path; every failure is a refusal |
| Go.Admit | src/commands/go.rs:70-122 | the canonical path passes iff it lies under the root, is a directory and has no locked ancestor, and then it is the path entered; every failure is a refusal |
| Go.Navigate | src/commands/go.rs:19-139 | every answer but a greeting keeps the current directory, and nothing is asked |
| Go.Refusal | src/commands/go.rs:19-122 | no refusal reads as a greeting |
| Go.NavigateSpec | src/commands/go.rs:19-139 | `go` enters a directory iff the candidate canonicalises to a directory under the root with no locked ancestor, and then the shell is in that canonical directory and greeted there |
| Go.HomeReturns | src/commands/go.rs:21-138 | `go HOME` enters the root whenever the root itself is admitted |
| Go.BackAtRoot | src/commands/go.rs:22-29 | `go ..` and `go back` at the root stay there with the at-root message |
| Go.GoWith | src/commands/go.rs:157-175 | no positional argument or more than one keeps the current directory with a usage message; exactly one navigates |
| Go.GoCommand | src/commands/go.rs:141-188 | without flags the command is the parsed run; otherwise the first flag decides, in place: `-h`/`--help` gives the help text, any other the unknown-flag message; a reply other than a greeting never moves the shell |
| Ls.Select | src/commands/ls.rs:28-42 | a name is selected iff it is listed, is neither `.dir_info` nor `info.json`, and is of the requested kind |
| Ls.SelectAscending | src/commands/ls.rs:44-45 | selecting from a sorted listing of distinct names keeps it strictly ascending |
| Ls.ListEntries | src/commands/ls.rs:19-47 | an unreadable target lists nothing; otherwise the files are exactly the visible non-directory entries and the directories exactly the visible directory entries, each strictly ascending |
| Ls.ListingPartitions | src/commands/ls.rs:28-42 | every visible entry of a readable directory is listed exactly once, as a file or as a directory |
| Ls.Marker | src/commands/ls.rs:124-144 | the marker is the lock bit read for the name, and unlocked when that read fails |
| Ls.Target | src/commands/ls.rs:58-98 | more than one argument is refused; none lists the current directory; one is refused when its lock code reads locked, then when restricted, then when its join does not start with the root, and is otherwise the join |
| Ls.Show | src/commands/ls.rs:100-154 | a directory is rendered from its listing; anything else is answered with the error of reading it |
| Ls.LsWith | src/commands/ls.rs:54-155 | a refused target is answered with its message, otherwise the target is shown |
| Ls.UnreadableLockListed | src/commands/ls.rs:69-76 | a target whose lock code cannot be read is listed as if unlocked |
| Ls.UnreadableShownUnlocked | src/commands/ls.rs:124-128 | an entry whose lock code cannot be read is shown without a marker |
| Ls.MarkersFromCurrentDir | src/commands/ls.rs:124-140 | markers are looked up under the current directory, so two directories with the same entries render alike whatever their own lock codes say |
| Ls.ParentResolves | src/commands/ls.rs:92-93 | above a stored directory other than `/`, `..` resolves to its parent |
| Ls.SameListing | src/commands/ls.rs:19-47 | two paths that resolve alike list alike |
| Ls.ListsAboveRoot | src/commands/ls.rs:92-100 | the root check does not resolve `..`, so `ls ..` at the root lists the directory above the root |
| Ls.DotDotPasses | src/commands/ls.rs:65-98 | `..` at the root passes the lock, restricted-name and root guards |
| Ls.LsCommand | src/commands/ls.rs:49-163 | without flags the command is the parsed run; otherwise the first flag decides: `-h`/`--help` gives the help text, any other the unknown-flag message |
| ReadCmd.ReadToString | src/commands/read.rs:41 | reading to a string succeeds iff the path is a file that is not a binary archive, and yields its contents |
| ReadCmd.ReadWith | src/commands/read.rs:13-53 | no argument is refused; the contents are returned iff the joined path is not restricted, starts with the root, and is a readable non-archive file; the restricted, outside-root, directory and missing-file answers each come in that order |
| ReadCmd.MissingFileMessage | src/commands/read.rs:41-50 | a path that resolves but names nothing is reported as "No such file" |
| ReadCmd.ReadsStored | src/commands/read.rs:18-42 | a path under the root that resolves to a stored text file prints that text |
| ReadCmd.ReadIgnoresLocks | src/commands/read.rs:13-53 | with no lock check, a text file under the root is printed whatever its lock code |
| ReadCmd.JoinName | src/commands/read.rs:18 | joining a plain name adds one component under the current directory |
| ReadCmd.LocateBesideRoot | src/commands/read.rs:41 | `root/../name` resolves to the entry next to the root |
| ReadCmd.ReadsAboveRoot | src/commands/read.rs:28-31 | the root check does not resolve `..`, so `read ../name` from the root prints a text file stored outside the root |
| Tap.Destination | src/commands/tap.rs:118-121 | the destination is an argument that is not a valid flag, and empty when every argument is a flag |
| Tap.DestinationIsFirst | src/commands/tap.rs:118-121 | every argument before the destination is a flag |
| Tap.HandleDestination | src/commands/tap.rs:71-99 | passes iff the normalised join lies under the root and names nothing yet, and yields that path |
| Tap.CreateFile | src/commands/tap.rs:22-38 | an existing path is answered with no change; a change means the path was free and now reads as an empty file; a free resolvable path reports "Created file" |
| Tap.CreateDirectory | src/commands/tap.rs:40-68 | an existing path is answered with no change; a change means the path was free and the directory creation succeeded; the answer says whether `create_dir_info` succeeded |
| Tap.CreateDirectoryWorld | src/commands/tap.rs:52-55 | a directory creation that changed the world is the new directory followed by its record |
| Tap.NewDirStays | src/commands/tap.rs:52-55 | the new directory stays a directory while its record is written, and everything stored before is kept |
| Tap.CreateDirInfoSteps | src/metainfo/valid_sekai.rs:65-95 | `create_dir_info` leaves the world it started from, the one with `.dir_info`, or that one with the record written |
| Tap.CreateDirInfoExtends | src/metainfo/valid_sekai.rs:65-95 | writing the record of a new directory keeps everything stored before it |
| Tap.CreateDirectoryExtends | src/commands/tap.rs:40-68 | a directory creation keeps every stored path unchanged |
| Tap.CreateFileExtends | src/commands/tap.rs:22-38 | a file creation keeps every stored path unchanged |
| Tap.Create | src/commands/tap.rs:140-149 | either creation keeps every stored path unchanged |
| Tap.TapWith | src/commands/tap.rs:117-150 | no destination and a restricted one are answered with no change; a failed destination check is answered with its message and no change; the world changes only through the creation at a valid destination; nothing is asked |
| Tap.TapOnlyAdds | src/commands/tap.rs:102-157 | `tap` only adds: every stored path, the parent's record included, keeps its entry, so the parent's record is not told about the new object |
| Tap.TapCreatesEmptyFile | src/commands/tap.rs:146-148 | a created file reads as empty at the join of the current directory and the name |
| Tap.CreateDirectoryIsDir | src/commands/tap.rs:40-68 | a directory creation that changed the world leaves a directory at the join |
| Tap.TapCreatesDirectory | src/commands/tap.rs:140-145 | with `-d` or a trailing `/`, a created directory lies at the join of the name without its trailing `/`s |
| Tap.TapCommand | src/commands/tap.rs:102-157 | when no argument is a rejected flag the command is the parsed run; otherwise the first rejected argument decides, with the world untouched: `-h`/`--help` gives the help text, an unknown flag the unknown-flag message |
| TabCompletion.Lcp | src/utils/tab_completion.rs:43-48 | the result is a prefix of both strings and stops where they first differ or one ends |
| TabCompletion.LcpAll | src/utils/tab_completion.rs:41-52 | the folded prefix is a prefix of every match |
| TabCompletion.LcpMaximal | src/utils/tab_completion.rs:43-48 | every common prefix of two strings is a prefix of their `Lcp` |
| TabCompletion.LcpAllMaximal | src/utils/tab_completion.rs:41-52 | the folded prefix is the longest prefix shared by all the matches |
| TabCompletion.LcpEmptyStays | src/utils/tab_completion.rs:49-51 | once the prefix is empty it stays empty, so the early `break` changes nothing |
| TabCompletion.FoldPrefix | src/utils/tab_completion.rs:41-52 | the loop with its early exit computes the longest common prefix of all the matches |
| TabCompletion.Padded | src/utils/tab_completion.rs:90 | a padded cell starts with the match and is as wide as the width, or as the match when it is longer |
| TabCompletion.CellsSplit | src/utils/tab_completion.rs:85-94 | the padded cells of a range are the cells of its two halves, concatenated |
| TabCompletion.DivCeilBounds | src/utils/tab_completion.rs:72 | `div_ceil` rows hold all the items, and one row fewer would not |
| TabCompletion.RowCountStep | src/utils/tab_completion.rs:85-94 | taking one row of items leaves one row fewer to lay out |
| TabCompletion.GridRowsCount | src/utils/tab_completion.rs:85-94 | the grid has `div_ceil(n, cols)` rows |
| TabCompletion.GridRowsConcat | src/utils/tab_completion.rs:85-94 | read row after row, the grid is every padded match in order, none lost or repeated |
| TabCompletion.ByteLens | src/utils/tab_completion.rs:70 | one UTF-8 byte length per match |
| TabCompletion.MaxOf | src/utils/tab_completion.rs:70 | the result bounds every length and is one of them, or 0 for none |
| TabCompletion.CellWidth | src/utils/tab_completion.rs:70 | a cell is at least two characters wide |
| TabCompletion.Columns | src/utils/tab_completion.rs:71 | there is always at least one column |
| TabCompletion.Layout | src/utils/tab_completion.rs:69-100 | the raw matches with the display-all flag iff the rows exceed the terminal height less four (saturating); otherwise exactly `div_ceil` rows that together are every padded match in order |
| TabCompletion.ProcessTabCompletion | src/utils/tab_completion.rs:16-105 | no match gives no action; one match completes the last word to it; several extend to their common prefix iff it is longer in bytes than the normalised last word; otherwise the candidates are shown with the prompt line and the layout |
| Wrapit.Wrapit | src/utils/wrapit.rs:2-8 | every line but the last has exactly `width` characters, the last has between one and `width`, the number of lines is `ceil(len / width)`, and an empty text gives no lines |
| Wrapit.WrapitConcat | src/utils/wrapit.rs:2-8 | joining the lines gives the text back |
| ShellHistory.AddToHistory | src/utils/shell_history.rs:4-14 | an input equal to the last entry leaves the history as it was; any other input is appended; the history never has two equal neighbours if it had none |
| ShellHistory.Collapse | src/utils/shell_history.rs:4-14 | the reference history: each run of equal neighbours collapsed to one, ending with the last input |
| ShellHistory.CollapseOfNoDup | src/utils/shell_history.rs:7-11 | a history without equal neighbours is its own collapse |
| ShellHistory.CollapseSnoc | src/utils/shell_history.rs:4-14 | collapsing one more input is adding it to the collapsed history |
| ShellHistory.AddAllIsCollapse | src/utils/shell_history.rs:4-14 | the history after any series of inputs is the collapse of the old history followed by the inputs |
| ShellHistory.CollapseConcat | src/utils/shell_history.rs:4-14 | collapsing a prefix first does not change the overall collapse |
| ShellHistory.GetHistory | src/utils/shell_history.rs:17-22 | a history kept by `add_to_history` reads back as its own collapse |
| FindRoot.FirstTrue | src/utils/find_root.rs:23-34 | the position found holds the first `true`, every earlier position is `false`, and no position means there is none |
| FindRoot.HomeMarks | src/utils/find_root.rs:25-28 | one mark per listed name, true exactly for a subdirectory other than `.dir_info` whose record validates with location `HOME` |
| FindRoot.FirstHomeChild | src/utils/find_root.rs:22-35 | nothing is found iff no listed name is a home subdirectory; otherwise the result is the first one in listing order |
| FindRoot.FindHome | src/utils/find_root.rs:7-50 | the start directory when its record says `HOME`; otherwise something is found iff the start is a directory listing a home subdirectory, and then it is the first such in listing order; nothing above the start is looked at |
| LegacySekai.ValidateSekai | src/utils/valid_sekai.rs:83-99 | true iff the path is a directory and every directory below it reached through names not starting with `.` holds an `info.json` |
| LegacySekai.CheckSubdirsIff | src/utils/valid_sekai.rs:43-80 | the recursive walk from a directory succeeds iff every visible directory below it holds an `info.json` |
| LegacySekai.CheckEntriesIff | src/utils/valid_sekai.rs:57-77 | the loop over the listing succeeds iff every listed name passes: a visible subdirectory has `info.json` and passes the walk itself |
| LegacySekai.AllHaveInfoSplit | src/utils/valid_sekai.rs:57-77 | the tree condition at a directory is the condition at each visible child together with the condition below it |
| LegacySekai.BelowShrinks | src/utils/valid_sekai.rs:72 | a stored child has fewer paths at or below it than its parent, so the recursion ends |
| LegacySekai.CheckDirectoryExists | src/utils/valid_sekai.rs:5-26 | the existence test adds nothing: the check holds exactly for a directory |
| LegacySekai.CheckInfoJsonExists | src/utils/valid_sekai.rs:29-40 | a file or a directory named `info.json` passes |
| LegacySekai.CheckSubdirs | src/utils/valid_sekai.rs:43-80 | when the walk from a directory succeeds, every visible child directory holds an `info.json` |
| LegacySekai.CheckEntries | src/utils/valid_sekai.rs:57-77 | when the loop succeeds, every visible listed subdirectory holds an `info.json` |
| LegacyInfoReader.ToJson | src/utils/info_reader.rs:6-13 | a legacy record is an object with exactly the fields `location` and `about` |
| LegacyInfoReader.FromJson | src/utils/info_reader.rs:6-13 | a document parses, with unknown fields denied, iff it has exactly those two fields and both are strings; parsing inverts serialisation |
| LegacyInfoReader.Validate | src/utils/info_reader.rs:29-43 | passes iff neither field is blank after trimming; a blank location is reported before a blank about |
| LegacyInfoReader.ValidateCleaned | src/utils/info_reader.rs:56-61 | a cleaned record has trimmed fields and validates iff both cleaned fields are non-empty |
| LegacyInfoReader.Clean | src/utils/info_reader.rs:56-58 | cleaning leaves both fields trimmed and no longer than they were |
| LegacyInfoReader.ReadValidateInfo | src/utils/info_reader.rs:46-64 | a missing file gives `NotFound`; a record is returned iff the file holds a two-field document whose cleaned fields are non-empty, and it is that cleaned record |
| LegacyInfoReader.ValidateJsonSchema | src/utils/info_reader.rs:66-90 | passes iff the text is JSON holding string fields `location` and `about`; text that is not JSON gives a parse error |
| LegacyInfoReader.ReadablePassesSchema | src/utils/info_reader.rs:46-90 | every record the reader accepts also passes the schema check |
| LegacyInfoReader.SchemaAcceptsExtraFields | src/utils/info_reader.rs:66-90 | the schema check accepts a third field that the reader refuses |
| LegacyInfoReader.LegacyRejectsCurrent | src/utils/info_reader.rs:7 | a record written by the current reader, which has `objects`, never parses as a legacy record |
| LegacyInfoReader.CleanQuotedOnce | src/utils/info_reader.rs:57 | one cleaning of ` "c" ` strips the white space but keeps the quotes |
| LegacyInfoReader.CleanQuotedWord | src/utils/info_reader.rs:57 | cleaning `"c"` strips the quotes |
| LegacyInfoReader.CleanNotIdempotent | src/utils/info_reader.rs:57 | cleaning is not idempotent: ` "x" ` cleans to `"x"` and then to `x` |

## Left out

- Copy and move recursion carries a `fuel` bound. A tree deeper than the bound answers "directory tree deeper than the model follows" (`Copy.TOO_DEEP`), and the walk of `ValidSekai.Walk` reports itself incomplete. Neither case exists in the source. Copying a directory into its own subtree is only followed as far as the fuel allows.
- `read_dir` returns entries in an order Rust leaves unspecified. `Fs.ReadDir` lists names in ascending order, so "the first match" in `find_home` and the order of side effects in the walks refer to that order.
- `normalize_path`, `check_dir_info` and `Path::canonicalize` are not part of this model. They are parameters (`Env`), and properties that need them assume what they need of them in `requires`.
- The world directory lives in a process-wide global behind a mutex in the source. It is the `worldDir` parameter here, and the history's mutex is dropped.
- The texts of `io::Error` values and of serde parse errors are not modelled: errors are kinds (`Fs.IoErr`, `InfoReader.InfoError` without the serde message).
- JSON text is not parsed or printed. A file holds either text, a parsed JSON value or an archive. Reading a record from a text or archive file is a parse error.
- The zlib/tar encoding of archives is not modelled. An archive is the exact map of root-relative paths to entries that the walk collected. The temporary path from `generate_temp_path` is covered by the `Snapshot.Restore` line below.
- Argon2 hashing and `SaltString` parsing are the `Flags.Crypto` parameter. SHA-3 and base64 in `deterministic_salt` are not used by the core and are left out.
- Snapshot.Restore: does not model the copy of the archive to `/tmp/deemak-<usage>-<hash>` (src/utils/restore_comp.rs:82-83), the unpacking from that copy (:110) or its removal (:116), because on success the copy only carries the archive's bytes across the clearing and is gone afterwards; the model reads the archive before clearing, which is the effect the copy has. A failing copy, a file already at the temporary path and a copy left behind when unpacking fails are not modelled.
- Security.GenKey: requires both strings to be shorter than 2^31 bytes, because the source casts their lengths to `i32`, and the first to be non-empty; `Flags` reports an empty first string, a division by zero in the source, as a panic before calling it. The model follows a release build: the truncating `as i32` of the product (src/rns/security.rs:28) and the 32-bit wrap-around of `mult + 1`, `mult + 2` and `i * mult` (:31-38) are modelled. A debug build panics on `i * mult` at src/rns/security.rs:38 as soon as `|mult|` exceeds 22,605,091 (`i32::MAX / 95`); that overflow panic is not modelled. The additions cannot overflow, since `i32::MAX` and `i32::MAX - 1` fall in the last arm.
- Wrapit.Wrapit: requires `width > 0`, because `chunks(0)` panics.
- Go.Greeting: states only that the answer starts with "You have entered "; the rest is the relative path and the record's `about`.
- Go.Restricted: states only that the refusal starts with `go: `; the rest names the destination.
- Logging (`log_info`, `log_warning`, `log_error`) has no effect on the model. A warning the source logs and ignores is a step that changes nothing.
- `ArgParser.parse` takes one argument, but `copy`, `del`, `tap`, `go` and `ls` call it with two. The model gives it the argument list those calls evidently mean.
- `main.rs` calls `validate_or_create_sekai` with one argument, while it takes two. `ValidSekai.ValidateOrCreateSekai` takes the `home_check` flag explicitly.
- `tap` imports a `create_dir_info` from `utils::valid_sekai`, which that file does not define. The model uses the one in `metainfo::valid_sekai`.
- File permissions are not modelled, so the `PermissionDenied` branch of `read` never runs.
- The legacy walk `LegacySekai.CheckSubdirs` works on the stored directory a path resolves to, rather than on the path as typed.
- Json.Value: JSON numbers are integers only (`Num(n: int)`). A `serde_json` number with a fraction or an exponent is not represented, because no record field the core reads or writes is a floating-point number.
- LegacyInfoReader.ValidateJsonSchema: takes the parsed document (`None` for text that is not JSON), because JSON text is not parsed.
- The tree walk of `ValidSekai` takes its listing and its per-directory step as parameters. The record reconciliation `create_dir_info` is one such step.
- The merge of an existing record with the current listing is stated as one map, not as the sequence of `insert` and `retain` calls.
- Outside the core and not modelled: the GUI and menus, login and authentication (`unlock` receives the user as a parameter), the server, configuration, and the `echo`, `help`, `exit` and `whoami` commands.

## Findings

| source | as written | input that shows it | evidently intended | confidence | as-written member | corrected member |
|---|---|---|---|---|---|---|
| src/rns/security.rs:30-35 | a multiplier divisible by 5 is raised by one, even when that makes it divisible by 19 | strings "AAAAAAAAAA" and "x": the multiplier 75 becomes 76 = 4·19, so the table maps both `$` and `~` to a space, and decrypting the encryption of `~` gives `$` | every adjusted multiplier is coprime to 95, so the table is a bijection and decryption undoes encryption | not executed | Security.AdjustAsWrittenMisses, Security.AsWrittenRoundTripFails, Security.EncKeyBijectiveIff | Security.AdjustCoprime, Security.EncKeyCorrectedBijective, Security.DecryptEncrypt |
| src/commands/copy.rs:294-305 | a subdirectory being moved is created at the destination with its record, moved by the recursive call, and then removed again | `copy -x -r a b` where `a` holds a subdirectory: without `-f` the recursive call refuses the destination it was just given; with `-f` the second `remove_dir_all` finds nothing and fails | the recursive call alone moves and removes the subdirectory | not executed | Copy.AsWrittenNeedsForce, Copy.AsWrittenRemovesTwice, Copy.AsWrittenLoopStops | Copy.MoveSubdir, Copy.MoveSubdirRemovesSource, Copy.MoveSubdirSucceeds |
