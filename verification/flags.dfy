/**
 * The flag chain shared by `solve` and `unlock`: how a level's flag is derived from the
 * player's answer, and how `check_level` and `check_chest` judge a flag. Argon2 hashing and
 * salt parsing come from outside as a `Crypto` value; a key whose first string is empty
 * makes `gen_encryption_key` divide by zero, which is a panic here.
 */
module Flags {
  import opened Wrappers
  import opened Text
  import opened Security

  /** The logged-in user: name and the salt string kept for them. */
  datatype User = User(username: string, salt: string)

  /**
   * `argonhash(salt, text)` as `hash`, and whether `SaltString::from_b64` accepts a salt
   * string as `saltValid`.
   */
  datatype Crypto = Crypto(hash: (string, string) -> string, saltValid: string -> bool)

  /** `characterise_enc_key(s1, s2)`, or `None` where it panics or its lengths leave `i32`. */
  function KeyOf(s1: string, s2: string): (r: Option<Key>)
    ensures r.Some? <==> 0 < |Bytes(s1)| <= I32_MAX && |Bytes(s2)| <= I32_MAX
    ensures r.Some? ==> r.value == EncKey(s1, s2)
  {
    if 0 < |Bytes(s1)| <= I32_MAX && |Bytes(s2)| <= I32_MAX then Some(EncKey(s1, s2)) else None
  }

  /** `format!("{}_{}", username, username.len())`: the length counts bytes. */
  function UserTag(username: string): string {
    username + "_" + NatToString(|Bytes(username)|)
  }

  /**
   * The key a level's flag is issued under and checked with, for one user. The tag is
   * never empty, so the key is missing only when a string is too long for `i32`.
   */
  function FlagKey(username: string, level: string): (r: Option<Key>)
    ensures r.Some? <==> |Bytes(UserTag(username))| <= I32_MAX && |Bytes(username + "_" + level)| <= I32_MAX
    ensures r.Some? ==> |r.value| == 95
  {
    KeyOf(UserTag(username), username + "_" + level)
  }

  /**
   * The text `check_solve_input` recovers from the level's `decrypt_me`: the answer is
   * decrypted under the user's key for the level, and the result keys the decryption of
   * `decrypt_me`.
   */
  function Payload(username: string, level: string, answer: string, decryptMe: string): (r: Option<string>)
    ensures r.Some? ==> |r.value| == |decryptMe|
    ensures r.Some? <==>
      KeyOf(username, level).Some? && KeyOf(level, Decrypt(KeyOf(username, level).value, answer)).Some?
  {
    var k1 :- KeyOf(username, level);
    var k2 :- KeyOf(level, Decrypt(k1, answer));
    Some(Decrypt(k2, decryptMe))
  }

  /** The flag `check_solve_input` issues: the payload encrypted under the user's flag key. */
  function SolveFlag(username: string, level: string, answer: string, decryptMe: string): (r: Option<string>)
    ensures r.Some? ==> |r.value| == |decryptMe|
    ensures r.Some? <==> Payload(username, level, answer, decryptMe).Some? && FlagKey(username, level).Some?
  {
    var p :- Payload(username, level, answer, decryptMe);
    var k :- FlagKey(username, level);
    Some(Encrypt(k, p))
  }

  /**
   * `check_level`: whether the flag, decrypted under the user's flag key and hashed with the
   * level's salt and then the user's salt, equals `compare_me` decrypted under the key of
   * (level salt, level). `None` where a salt fails to parse or a key panics. The source's
   * `encrypted_flag` parameter is never read, so it is not a parameter here.
   */
  function CheckLevel(crypto: Crypto, flag: string, level: string, levelSalt: string, compareMe: string,
                      username: string, userSalt: string): (r: Option<bool>)
    ensures r.Some? <==>
      crypto.saltValid(levelSalt) && crypto.saltValid(userSalt)
      && FlagKey(username, level).Some? && KeyOf(levelSalt, level).Some?
    ensures r.Some? ==> (r.value <==>
      Decrypt(KeyOf(levelSalt, level).value, compareMe)
        == crypto.hash(userSalt, crypto.hash(levelSalt, Decrypt(FlagKey(username, level).value, flag))))
  {
    if !crypto.saltValid(levelSalt) || !crypto.saltValid(userSalt) then None
    else
      var k :- FlagKey(username, level);
      var hashed := crypto.hash(userSalt, crypto.hash(levelSalt, Decrypt(k, flag)));
      var k2 :- KeyOf(levelSalt, level);
      Some(Decrypt(k2, compareMe) == hashed)
  }

  /**
   * `check_chest`: the flag hashed with the chest's salt, encrypted under the key of (chest
   * name, that hash), must equal `compare_me`. The user's salt is parsed and then ignored.
   */
  function CheckChest(crypto: Crypto, flag: string, name: string, chestSalt: string, compareMe: string,
                      userSalt: string): (r: Option<bool>)
    ensures r.Some? <==>
      crypto.saltValid(chestSalt) && crypto.saltValid(userSalt)
      && KeyOf(name, crypto.hash(chestSalt, flag)).Some?
    ensures r.Some? ==> (r.value <==>
      Encrypt(KeyOf(name, crypto.hash(chestSalt, flag)).value, crypto.hash(chestSalt, flag)) == compareMe)
  {
    if !crypto.saltValid(chestSalt) || !crypto.saltValid(userSalt) then None
    else
      var h := crypto.hash(chestSalt, flag);
      var k :- KeyOf(name, h);
      Some(Encrypt(k, h) == compareMe)
  }

  // ---------------------------------------------------------------------------
  // How the pieces fit together
  // ---------------------------------------------------------------------------

  /** A name made of one ASCII character or more gives a key. */
  lemma AsciiKeyDefined(s1: string, s2: string)
    requires s1 != [] && IsAscii(s1) && |s1| <= I32_MAX
    requires IsAscii(s2) && |s2| <= I32_MAX
    ensures KeyOf(s1, s2).Some?
  {
    BytesOfAscii(s1);
    BytesOfAscii(s2);
  }

  /**
   * The flag solve issues is the payload, sealed under the user's flag key: when that key is
   * a bijection, `check_level`'s decryption of the flag gives back exactly the payload.
   */
  lemma FlagRecoversPayload(username: string, level: string, answer: string, decryptMe: string)
    requires SolveFlag(username, level, answer, decryptMe).Some?
    requires Bijective(FlagKey(username, level).value)
    ensures Decrypt(FlagKey(username, level).value, SolveFlag(username, level, answer, decryptMe).value)
         == Payload(username, level, answer, decryptMe).value
  {
    DecryptEncrypt(FlagKey(username, level).value, Payload(username, level, answer, decryptMe).value);
  }

  /**
   * A user whose flag key for the level is a bijection gets a flag that `check_level`
   * accepts exactly when the level's `compare_me` decrypts to the double hash of the
   * payload. `Security.EncKeyBijectiveIff` says which keys are bijections.
   */
  lemma SolvedFlagUnlocks(crypto: Crypto, username: string, level: string, answer: string, decryptMe: string,
                          levelSalt: string, compareMe: string, userSalt: string)
    requires SolveFlag(username, level, answer, decryptMe).Some?
    requires Bijective(FlagKey(username, level).value)
    requires CheckLevel(crypto, SolveFlag(username, level, answer, decryptMe).value, level, levelSalt,
                        compareMe, username, userSalt).Some?
    ensures CheckLevel(crypto, SolveFlag(username, level, answer, decryptMe).value, level, levelSalt,
                       compareMe, username, userSalt).value
        <==> Decrypt(KeyOf(levelSalt, level).value, compareMe)
             == crypto.hash(userSalt, crypto.hash(levelSalt, Payload(username, level, answer, decryptMe).value))
  {
    FlagRecoversPayload(username, level, answer, decryptMe);
  }

  /**
   * The flag key of a user and level that do not wrap is a bijection exactly when its
   * multiplier avoids the case the written adjustment misses; then solve's flag unlocks.
   */
  lemma FlagKeyBijectiveIff(username: string, level: string)
    requires Small(UserTag(username), username + "_" + level)
    ensures FlagKey(username, level).Some?
    ensures Bijective(FlagKey(username, level).value) <==> !MissedCase(UserTag(username), username + "_" + level)
  {
    EncKeyBijectiveIff(UserTag(username), username + "_" + level);
  }

  /**
   * A level accepts a flag only if `compare_me` is the double hash sealed under the key of
   * (level salt, level), when that key is a bijection.
   */
  lemma LevelAcceptedSeal(crypto: Crypto, flag: string, level: string, levelSalt: string, compareMe: string,
                          username: string, userSalt: string)
    requires CheckLevel(crypto, flag, level, levelSalt, compareMe, username, userSalt) == Some(true)
    requires Bijective(KeyOf(levelSalt, level).value)
    ensures compareMe == Encrypt(KeyOf(levelSalt, level).value,
      crypto.hash(userSalt, crypto.hash(levelSalt, Decrypt(FlagKey(username, level).value, flag))))
  {
    EncryptDecrypt(KeyOf(levelSalt, level).value, compareMe);
  }

  /**
   * A chest accepts a flag only if decrypting `compare_me` under the key of (chest name,
   * hash of the flag) gives that hash back, when that key is a bijection.
   */
  lemma ChestAcceptedSeal(crypto: Crypto, flag: string, name: string, chestSalt: string, compareMe: string,
                          userSalt: string)
    requires CheckChest(crypto, flag, name, chestSalt, compareMe, userSalt) == Some(true)
    requires Bijective(KeyOf(name, crypto.hash(chestSalt, flag)).value)
    ensures Decrypt(KeyOf(name, crypto.hash(chestSalt, flag)).value, compareMe) == crypto.hash(chestSalt, flag)
  {
    DecryptEncrypt(KeyOf(name, crypto.hash(chestSalt, flag)).value, crypto.hash(chestSalt, flag));
  }

  /** Which user asks makes no difference to a chest, as long as their salt parses. */
  lemma ChestIgnoresUser(crypto: Crypto, flag: string, name: string, chestSalt: string, compareMe: string,
                         salt1: string, salt2: string)
    requires crypto.saltValid(salt1) && crypto.saltValid(salt2)
    ensures CheckChest(crypto, flag, name, chestSalt, compareMe, salt1)
         == CheckChest(crypto, flag, name, chestSalt, compareMe, salt2)
  {
  }
}
