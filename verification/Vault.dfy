/**
 Vaults: unlocking one with its password, giving it a new password from its
 recovery key, and the names its nodes have. What the standard libraries do is
 given, with the laws that are used of it.
 */
module Vault {
  import opened Wrappers
  import opened Bytes
  import Base32
  import KeyWrap
  import Siv
  import Recovery

  const FORMAT := 8
  const CIPHER_COMBO := "SIV_GCM"
  const MASTERKEY_KID := "masterkeyfile:masterkey.cryptomator"
  const MASTERKEY_VERSION: bv32 := 999
  const SCRYPT_COST := 0x8000
  const SCRYPT_BLOCK := 8
  const MAX_SCRYPT_COST := 0x10_0000
  const MAX_SCRYPT_BLOCK := 8
  const DEFAULT_SHORTENING_THRESHOLD := 220
  const SUFFIX := ".c9r"

  /** What vault.cryptomator says, with the times a token may have. */
  datatype Claims = Claims(format: int, shorteningThreshold: int, cipherCombo: string, id: bytes,
                           expires: Option<int>, notBefore: Option<int>) {
    predicate Current(now: int) {
      (expires.Some? ==> now < expires.value) && (notBefore.Some? ==> notBefore.value <= now)
    }
  }

  /** vault.cryptomator: a signed token, or something else. */
  datatype VaultFile = NotAToken | Token(kid: Option<string>, alg: string, claims: Claims, signature: bytes)

  /** masterkey.cryptomator: the keys wrapped under a password, or something else. */
  datatype KeyFile = NotAKeyFile
    | KeyFile(version: bv32, salt: bytes, cost: int, block: int, primary: bytes, hmac: bytes, versionMac: bytes)

  /**
   The libraries: block ciphers, Unicode normalization, scrypt to a key of 32
   bytes, HMAC, the signature of a token, and URL-safe base64.
   */
  datatype Primitives = Primitives(
    aes: Aes,
    nfc: bytes -> bytes,
    scrypt: (bytes, bytes, int, int) -> Option<bytes>,
    hmac: (bytes, bytes) -> bytes,
    sign: (string, Option<string>, Claims, bytes) -> bytes,
    encode64: bytes -> string,
    decode64: string -> Option<bytes>)
  {
    ghost predicate Lawful() {
      && (forall p: bytes, s: bytes, n: int, r: int :: scrypt(p, s, n, r).Some? ==> |scrypt(p, s, n, r).value| == 32)
      && (forall p: bytes, s: bytes :: scrypt(p, s, SCRYPT_COST, SCRYPT_BLOCK).Some?)
      && (forall b: bytes :: decode64(encode64(b)) == Some(b))
    }
  }

  type Library = p: Primitives | p.Lawful() ghost witness ToyLibrary()

  /** A toy library that shows the laws of Library can be met. */
  ghost function ToyLibrary(): (p: Primitives)
    ensures p.Lawful()
  {
    var encode := (b: bytes) => Recovery.TextOf(Base32.Encode(b));
    var decode := (t: string) =>
      match Recovery.SymbolsOf(t) case None => None case Some(v) => Some(Base32.Decode(v));
    assert forall b: bytes :: decode(encode(b)) == Some(b) by {
      forall b: bytes
        ensures decode(encode(b)) == Some(b)
      {
        Recovery.SymbolsOfTextOf(Base32.Encode(b));
        Base32.DecodeOfEncode(b);
      }
    }
    Primitives(XorFamily(), b => b, (p, s, n, r) => Some(Zeros(32)), (k, m) => m, (a, kid, c, k) => k, encode, decode)
  }

  /** An unlocked vault. */
  datatype Vault = Vault(encKey: bytes, macKey: bytes, threshold: int) {
    /** rawKey. */
    function RawKey(): bytes {
      encKey + macKey
    }
  }

  datatype UnlockError = NotAVault | UnlockedOtherwise | BadKeyFile | TooMuchWork | NoKey
    | WrongPassword | Tampered | NotSigned | OtherFormat | OtherCipher | BadKeys

  /** newVault. */
  function NewVault(encKey: bytes, macKey: bytes, threshold: int): Result<Vault, UnlockError> {
    if IsAesKey(encKey) && IsAesKey(macKey) then Ok(Vault(encKey, macKey, threshold)) else Err(BadKeys)
  }

  /** versionMac. */
  function VersionMac(lib: Library, macKey: bytes, version: bv32): bytes {
    lib.hmac(macKey, Recovery.PutUint32(version))
  }

  /** Unlock. */
  function Unlock(lib: Library, vaultFile: VaultFile, keyFile: KeyFile, password: bytes, now: int):
    Result<Vault, UnlockError>
  {
    match vaultFile
    case NotAToken => Err(NotAVault)
    case Token(kid, alg, claims, signature) =>
      if kid != Some(MASTERKEY_KID) then Err(UnlockedOtherwise) else
        match keyFile
        case NotAKeyFile => Err(BadKeyFile)
        case KeyFile(version, salt, cost, block, primary, hmac, mac) =>
          if cost > MAX_SCRYPT_COST || block > MAX_SCRYPT_BLOCK then Err(TooMuchWork) else
            match lib.scrypt(lib.nfc(password), salt, cost, block)
            case None => Err(NoKey)
            case Some(kek) =>
              match (KeyWrap.Unwrapped(lib.aes, kek, primary), KeyWrap.Unwrapped(lib.aes, kek, hmac))
              case (Ok(encKey), Ok(macKey)) =>
                if mac != VersionMac(lib, macKey, version) then Err(Tampered)
                else if alg !in ["HS256", "HS384", "HS512"] || signature != lib.sign(alg, kid, claims, encKey + macKey)
                        || !claims.Current(now)
                then Err(NotSigned)
                else if claims.format != FORMAT then Err(OtherFormat)
                else if claims.cipherCombo != CIPHER_COMBO then Err(OtherCipher)
                else NewVault(encKey, macKey, if claims.shorteningThreshold <= 0 then DEFAULT_SHORTENING_THRESHOLD
                                              else claims.shorteningThreshold)
              case _ => Err(WrongPassword)
  }

  /** Vault.masterkeyFile, with the salt that was drawn for it. */
  function MasterkeyFile(lib: Library, v: Vault, password: bytes, salt: bytes): Result<KeyFile, UnlockError> {
    match lib.scrypt(lib.nfc(password), salt, SCRYPT_COST, SCRYPT_BLOCK)
    case None => Err(NoKey)
    case Some(kek) =>
      match (KeyWrap.Wrapped(lib.aes, kek, v.encKey), KeyWrap.Wrapped(lib.aes, kek, v.macKey))
      case (Ok(primary), Ok(hmac)) =>
        Ok(KeyFile(MASTERKEY_VERSION, salt, SCRYPT_COST, SCRYPT_BLOCK, primary, hmac,
                   VersionMac(lib, v.macKey, MASTERKEY_VERSION)))
      case _ => Err(BadKeys)
  }

  datatype RecoverError = NotARecoveryKey | Failed(why: UnlockError)

  /** Recover. */
  function Recover(lib: Library, recoveryKey: string, password: bytes, salt: bytes): Result<KeyFile, RecoverError> {
    match Recovery.Recovered(recoveryKey)
    case Err(_) => Err(NotARecoveryKey)
    case Ok(keys) =>
      match NewVault(keys[..32], keys[32..], DEFAULT_SHORTENING_THRESHOLD)
      case Err(e) => Err(Failed(e))
      case Ok(v) =>
        match MasterkeyFile(lib, v, password, salt)
        case Err(e) => Err(Failed(e))
        case Ok(file) => Ok(file)
  }

  /** A key file that a vault writes opens, with a vault file that is current, to the keys it was written of. */
  lemma MasterkeyFileUnlocks(lib: Library, vaultFile: VaultFile, keyFile: KeyFile, oldPassword: bytes, v: Vault,
                             password: bytes, salt: bytes, earlier: int, now: int)
    requires Unlock(lib, vaultFile, keyFile, oldPassword, earlier) == Ok(v)
    ensures MasterkeyFile(lib, v, password, salt).Ok?
    ensures Unlock(lib, vaultFile, MasterkeyFile(lib, v, password, salt).value, password, now)
         == if vaultFile.claims.Current(now) then Ok(v) else Err(NotSigned)
  {
    UnlockedToken(lib, vaultFile, keyFile, oldPassword, v, earlier);
    KeyFileOpens(lib, vaultFile, v, password, salt, now);
  }

  /** What the vault file of an unlocked vault is: signed by its keys, of this format and cipher. */
  predicate IsTokenOf(lib: Library, vaultFile: VaultFile, v: Vault) {
    && vaultFile.Token? && vaultFile.kid == Some("masterkeyfile:masterkey.cryptomator")
    && vaultFile.alg in ["HS256", "HS384", "HS512"]
    && vaultFile.signature == lib.sign(vaultFile.alg, vaultFile.kid, vaultFile.claims, v.encKey + v.macKey)
    && vaultFile.claims.format == 8 && vaultFile.claims.cipherCombo == "SIV_GCM"
    && v.threshold == (if vaultFile.claims.shorteningThreshold <= 0 then 220 else vaultFile.claims.shorteningThreshold)
    && |v.encKey| in {16, 24, 32} && |v.macKey| in {16, 24, 32}
  }

  lemma UnlockedToken(lib: Library, vaultFile: VaultFile, keyFile: KeyFile, password: bytes, v: Vault, now: int)
    requires Unlock(lib, vaultFile, keyFile, password, now) == Ok(v)
    ensures IsTokenOf(lib, vaultFile, v) && vaultFile.claims.Current(now)
  {
    hide KeyWrap.Unwrapped, VersionMac;
  }

  /**
   A vault unlocks to two keys exactly if the key file holds them wrapped under
   the key of the password, does not ask for too much work and is not tampered
   with, and the vault file is a current token of this format and cipher that
   these keys signed.
   */
  lemma UnlocksExactlyIf(lib: Library, vaultFile: VaultFile, keyFile: KeyFile, password: bytes, v: Vault, now: int)
    ensures Unlock(lib, vaultFile, keyFile, password, now) == Ok(v)
       <==> && vaultFile.Token? && keyFile.KeyFile?
            && HoldsKeys(lib, keyFile, password, v)
            && IsTokenOf(lib, vaultFile, v)
            && (vaultFile.claims.expires.Some? ==> now < vaultFile.claims.expires.value)
            && (vaultFile.claims.notBefore.Some? ==> vaultFile.claims.notBefore.value <= now)
  {
    hide KeyWrap.Wrapped, KeyWrap.Unwrapped, VersionMac;
    if keyFile.KeyFile? {
      VersionMacOf(lib, v.macKey, keyFile.version);
      var kek := lib.scrypt(lib.nfc(password), keyFile.salt, keyFile.cost, keyFile.block);
      if kek.Some? {
        KeyWrap.UnwrapExactlyUndoesWrap(lib.aes, kek.value, v.encKey, keyFile.primary);
        KeyWrap.UnwrapExactlyUndoesWrap(lib.aes, kek.value, v.macKey, keyFile.hmac);
      }
    }
  }

  /** What a key file is that the password opens to the keys of a vault. */
  predicate HoldsKeys(lib: Library, keyFile: KeyFile, password: bytes, v: Vault)
    requires keyFile.KeyFile?
  {
    && keyFile.cost <= 1_048_576 && keyFile.block <= 8
    && var kek := lib.scrypt(lib.nfc(password), keyFile.salt, keyFile.cost, keyFile.block);
    && kek.Some?
    && KeyWrap.Wrapped(lib.aes, kek.value, v.encKey) == Ok(keyFile.primary)
    && KeyWrap.Wrapped(lib.aes, kek.value, v.macKey) == Ok(keyFile.hmac)
    && keyFile.versionMac == lib.hmac(v.macKey, Recovery.PutUint32(keyFile.version))
  }

  lemma VersionMacOf(lib: Library, macKey: bytes, version: bv32)
    ensures VersionMac(lib, macKey, version) == lib.hmac(macKey, Recovery.PutUint32(version))
  {
  }

  /** The key file of a vault and a password opens any vault file of that vault. */
  lemma KeyFileOpens(lib: Library, vaultFile: VaultFile, v: Vault, password: bytes, salt: bytes, now: int)
    requires IsTokenOf(lib, vaultFile, v)
    ensures MasterkeyFile(lib, v, password, salt).Ok?
    ensures Unlock(lib, vaultFile, MasterkeyFile(lib, v, password, salt).value, password, now)
         == if vaultFile.claims.Current(now) then Ok(v) else Err(NotSigned)
  {
    hide KeyWrap.Unwrapped, KeyWrap.Wrapped, VersionMac;
    var kek := lib.scrypt(lib.nfc(password), salt, SCRYPT_COST, SCRYPT_BLOCK).value;
    KeyUnwraps(lib, kek, v.encKey);
    KeyUnwraps(lib, kek, v.macKey);
  }

  lemma KeyUnwraps(lib: Library, kek: bytes, key: bytes)
    requires |kek| == 32 && IsAesKey(key)
    ensures KeyWrap.Wrapped(lib.aes, kek, key).Ok?
    ensures KeyWrap.Unwrapped(lib.aes, kek, KeyWrap.Wrapped(lib.aes, kek, key).value) == Ok(key)
  {
    hide KeyWrap.Wrap, KeyWrap.Unwrapped;
    KeyWrap.UnwrapExactlyUndoesWrap(lib.aes, kek, key, KeyWrap.Wrapped(lib.aes, kek, key).value);
  }

  /** For any two keys of lengths that AES has there is a vault that unlocks to them. */
  lemma AnyKeysUnlock(lib: Library, encKey: bytes, macKey: bytes, password: bytes, salt: bytes, now: int)
    returns (vaultFile: VaultFile, keyFile: KeyFile)
    requires IsAesKey(encKey) && IsAesKey(macKey)
    ensures Unlock(lib, vaultFile, keyFile, password, now) == Ok(Vault(encKey, macKey, DEFAULT_SHORTENING_THRESHOLD))
  {
    var v := Vault(encKey, macKey, DEFAULT_SHORTENING_THRESHOLD);
    var claims := Claims(FORMAT, DEFAULT_SHORTENING_THRESHOLD, CIPHER_COMBO, [], None, None);
    var kid := Some(MASTERKEY_KID);
    vaultFile := Token(kid, "HS256", claims, lib.sign("HS256", kid, claims, v.RawKey()));
    hide Unlock, MasterkeyFile;
    KeyFileOpens(lib, vaultFile, v, password, salt, now);
    keyFile := MasterkeyFile(lib, v, password, salt).value;
  }

  /**
   The recovery key of an unlocked vault makes a key file that a new password
   opens to the same vault, exactly when both its keys have 32 bytes, as those
   of a vault made here do; the recovery key of any other is refused.
   */
  lemma RecoveryUnlocksSameVault(lib: Library, vaultFile: VaultFile, keyFile: KeyFile, oldPassword: bytes, v: Vault,
                                 password: bytes, salt: bytes, earlier: int, now: int)
    requires Unlock(lib, vaultFile, keyFile, oldPassword, earlier) == Ok(v)
    ensures var recovered := Recover(lib, Recovery.Written(v.RawKey()), password, salt);
            && (recovered.Ok? <==> |v.encKey| == 32 && |v.macKey| == 32)
            && (recovered.Ok? ==> Unlock(lib, vaultFile, recovered.value, password, now)
                                  == if vaultFile.claims.Current(now) then Ok(v) else Err(NotSigned))
            && (recovered.Err? ==> recovered.error == NotARecoveryKey)
  {
    UnlockedToken(lib, vaultFile, keyFile, oldPassword, v, earlier);
    hide Unlock, MasterkeyFile, Recovery.Written, Recovery.Recovered;
    Recovery.RecoveredExactlyFullKeys(v.RawKey());
    MasterkeyFileUnlocks(lib, vaultFile, keyFile, oldPassword, v, password, salt, earlier, now);
    if |v.RawKey()| == 64 {
      assert v.RawKey()[..32] == v.encKey && v.RawKey()[32..] == v.macKey;
      SameKeyFile(lib, v, DEFAULT_SHORTENING_THRESHOLD, password, salt);
    }
  }

  /** A vault with keys of 16 bytes unlocks, and its recovery key is refused. */
  lemma RecoveryOfShortKeysIsRefused(lib: Library, password: bytes, salt: bytes, now: int)
    returns (vaultFile: VaultFile, keyFile: KeyFile, v: Vault)
    ensures Unlock(lib, vaultFile, keyFile, password, now) == Ok(v) && |v.encKey| == |v.macKey| == 16
    ensures Recover(lib, Recovery.Written(v.RawKey()), password, salt) == Err(NotARecoveryKey)
  {
    v := Vault(Zeros(16), Zeros(16), DEFAULT_SHORTENING_THRESHOLD);
    vaultFile, keyFile := AnyKeysUnlock(lib, v.encKey, v.macKey, password, salt, now);
    hide Unlock, Recover, Recovery.Written;
    RecoveryUnlocksSameVault(lib, vaultFile, keyFile, password, v, password, salt, now, now);
  }

  /** The threshold is not kept in the key file. */
  lemma SameKeyFile(lib: Library, v: Vault, threshold: int, password: bytes, salt: bytes)
    ensures MasterkeyFile(lib, Vault(v.encKey, v.macKey, threshold), password, salt)
         == MasterkeyFile(lib, v, password, salt)
  {
  }

  /** What a key file asks for that is written here. */
  lemma KeyFileAsksFor(lib: Library, v: Vault, password: bytes, salt: bytes)
    requires MasterkeyFile(lib, v, password, salt).Ok?
    ensures var file := MasterkeyFile(lib, v, password, salt).value;
            && file.KeyFile? && HoldsKeys(lib, file, password, v)
            && file.version == 999 && file.cost == 32_768 && file.block == 8 && file.salt == salt
  {
    hide KeyWrap.Wrapped;
  }

  // Names

  function KeysOf(lib: Library, v: Vault): Siv.Keys {
    Siv.Keys(lib.aes, v.macKey, v.encKey)
  }

  /** Vault.EncryptName, of names and folder IDs as UTF-8. */
  function EncryptName(lib: Library, v: Vault, name: bytes, dirId: bytes): string {
    lib.encode64(Siv.Sealed(KeysOf(lib, v), lib.nfc(name), [dirId])) + SUFFIX
  }

  /** Vault.DecryptName. */
  function DecryptName(lib: Library, v: Vault, encrypted: string, dirId: bytes): Result<bytes, Siv.SivError> {
    if |encrypted| < |SUFFIX| || encrypted[|encrypted| - |SUFFIX|..] != SUFFIX then Err(Siv.Refused)
    else
      match lib.decode64(encrypted[..|encrypted| - |SUFFIX|])
      case None => Err(Siv.Refused)
      case Some(sealed) => Siv.Opened(KeysOf(lib, v), sealed, [dirId])
  }

  /** A name decrypts to its normal form, so that two names of one folder have one node exactly when those agree. */
  lemma NamesComeBack(lib: Library, v: Vault, name: bytes, other: bytes, dirId: bytes)
    ensures DecryptName(lib, v, EncryptName(lib, v, name, dirId), dirId) == Ok(lib.nfc(name))
    ensures EncryptName(lib, v, name, dirId) == EncryptName(lib, v, other, dirId) <==> lib.nfc(name) == lib.nfc(other)
  {
    hide Siv.Sealed, Siv.Opened;
    NameComesBack(lib, v, name, dirId);
    NameComesBack(lib, v, other, dirId);
  }

  /** What a name is sealed with: its synthetic IV comes of the MAC key alone, and the vaults agree on it. */
  lemma IvComesOfMacKey(lib: Library, v: Vault, other: Vault, name: bytes, dirId: bytes)
    requires v.macKey == other.macKey
    ensures Siv.Sealed(KeysOf(lib, v), name, [dirId])[..16] == Siv.Sealed(KeysOf(lib, other), name, [dirId])[..16]
  {
    hide Siv.S2v, Siv.CtrXor;
  }

  lemma NameComesBack(lib: Library, v: Vault, name: bytes, dirId: bytes)
    ensures DecryptName(lib, v, EncryptName(lib, v, name, dirId), dirId) == Ok(lib.nfc(name))
  {
    hide Siv.Sealed, Siv.Opened;
    var sealed := Siv.Sealed(KeysOf(lib, v), lib.nfc(name), [dirId]);
    var encrypted := EncryptName(lib, v, name, dirId);
    assert encrypted[..|encrypted| - |SUFFIX|] == lib.encode64(sealed);
    assert encrypted[|encrypted| - |SUFFIX|..] == SUFFIX;
    Siv.OpenExactlyUndoesSeal(KeysOf(lib, v), lib.nfc(name), sealed, [dirId]);
  }

  /** A node that decrypts to a name holds exactly what that name is sealed to. */
  lemma DecryptsOnlySealedNames(lib: Library, v: Vault, encrypted: string, dirId: bytes, name: bytes)
    ensures DecryptName(lib, v, encrypted, dirId) == Ok(name)
       <==> && |encrypted| >= |SUFFIX| && encrypted[|encrypted| - |SUFFIX|..] == SUFFIX
            && lib.decode64(encrypted[..|encrypted| - |SUFFIX|]) == Some(Siv.Sealed(KeysOf(lib, v), name, [dirId]))
  {
    hide Siv.Sealed, Siv.Opened;
    if |encrypted| >= |SUFFIX| {
      var sealed := lib.decode64(encrypted[..|encrypted| - |SUFFIX|]);
      if sealed.Some? {
        Siv.OpenExactlyUndoesSeal(KeysOf(lib, v), name, sealed.value, [dirId]);
      }
    }
  }
}
