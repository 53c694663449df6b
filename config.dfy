/**
 * Secret resolution of `config.py`: the once-only `.env` cache and the two
 * resolvers, with a non-empty environment variable taking precedence over
 * the file. The process environment is a parameter, and so is the `.env`
 * file as it stands at the moment it would be read.
 */
module Config {
  import opened Wrappers
  import opened Dotenv
  import opened Utf8

  const LicenseVar: string := "AVA_LICENSE_KEY"
  const EncryptionVar: string := "AVA_ENCRYPTION_KEY"

  /** The placeholder key `b"YOUR_STATIC_KEY"`. */
  const StaticKey: seq<byte> := [89, 79, 85, 82, 95, 83, 84, 65, 84, 73, 67, 95, 75, 69, 89]

  /** Python truthiness of an optional string: present and not empty. */
  predicate Truthy(v: Option<string>) {
    v.Some? && v.value != []
  }

  /** Python's `a or b` on optional strings. */
  function Or(a: Option<string>, b: Option<string>): Option<string> {
    if Truthy(a) then a else b
  }

  /** The mapping (the environment or the parsed file) holds a non-empty value for `name`. */
  predicate NonEmptyAt(m: map<string, string>, name: string) {
    name in m && m[name] != []
  }

  /** The mapping `_load_dotenv` returns: the cached one if there is one, else the file's. */
  function Loaded(cache: Option<map<string, string>>, file: DotenvFile): map<string, string> {
    match cache
    case Some(m) => m
    case None => DotenvMap(file)
  }

  /**
   * `get_license_key`: a non-empty environment value wins; otherwise the file's
   * value, which is returned even when it is empty; otherwise nothing.
   */
  function LicenseKey(env: map<string, string>, dotenv: map<string, string>): (r: Option<string>)
    ensures NonEmptyAt(env, LicenseVar) ==> r == Some(env[LicenseVar])
    ensures !NonEmptyAt(env, LicenseVar) && LicenseVar in dotenv ==> r == Some(dotenv[LicenseVar])
    ensures !NonEmptyAt(env, LicenseVar) && LicenseVar !in dotenv ==> r == None
  {
    var envKey := Get(env, LicenseVar);
    if Truthy(envKey) then envKey else Get(dotenv, LicenseVar)
  }

  /**
   * `get_encryption_key`: the UTF-8 bytes of the first non-empty value among the
   * environment's and the file's, or the placeholder key when neither has one.
   * Some non-empty byte string is always returned.
   */
  function EncryptionKey(env: map<string, string>, dotenv: map<string, string>): (r: seq<byte>)
    ensures |r| > 0
    ensures NonEmptyAt(env, EncryptionVar) ==> r == Encode(env[EncryptionVar])
    ensures !NonEmptyAt(env, EncryptionVar) && NonEmptyAt(dotenv, EncryptionVar) ==> r == Encode(dotenv[EncryptionVar])
    ensures !NonEmptyAt(env, EncryptionVar) && !NonEmptyAt(dotenv, EncryptionVar) ==> r == StaticKey
  {
    var key := Or(Get(env, EncryptionVar), Get(dotenv, EncryptionVar));
    if Truthy(key) then Encode(key.value) else StaticKey
  }

  /** An empty environment value behaves exactly as an unset one, for both resolvers. */
  lemma EmptyEnvIsUnset(env: map<string, string>, dotenv: map<string, string>, name: string)
    requires name in env && env[name] == []
    ensures LicenseKey(env, dotenv) == LicenseKey(env - {name}, dotenv)
    ensures EncryptionKey(env, dotenv) == EncryptionKey(env - {name}, dotenv)
  {
  }

  /** With the variable set and non-empty, the file's contents do not matter. */
  lemma EnvOverridesFile(env: map<string, string>, d1: map<string, string>, d2: map<string, string>)
    ensures NonEmptyAt(env, LicenseVar) ==> LicenseKey(env, d1) == LicenseKey(env, d2)
    ensures NonEmptyAt(env, EncryptionVar) ==> EncryptionKey(env, d1) == EncryptionKey(env, d2)
  {
  }

  /**
   * A caller cannot tell the placeholder from a key set in the environment:
   * a value whose UTF-8 bytes are those of the placeholder resolves to the
   * same bytes as no configuration at all.
   */
  lemma FallbackIndistinguishable(env: map<string, string>, dotenv: map<string, string>)
    requires EncryptionVar in env && Encode(env[EncryptionVar]) == StaticKey
    ensures EncryptionKey(env, dotenv) == EncryptionKey(map[], map[])
  {
  }

  /**
   * Nor from a key set in the `.env` file: with the variable unset or empty,
   * a file value whose bytes are the placeholder's resolves like no configuration.
   */
  lemma FallbackIndistinguishableFile(env: map<string, string>, dotenv: map<string, string>)
    requires !NonEmptyAt(env, EncryptionVar)
    requires EncryptionVar in dotenv && Encode(dotenv[EncryptionVar]) == StaticKey
    ensures EncryptionKey(env, dotenv) == EncryptionKey(map[], map[])
  {
  }

  /**
   * The process-wide `_DOTENV_CACHE`: empty until the first load, then the
   * parsed mapping, which is never replaced.
   */
  class SecretStore {
    var cache: Option<map<string, string>>

    constructor ()
      ensures cache == None
    {
      cache := None;
    }

    /**
     * `_load_dotenv`: the cached mapping if there is one; otherwise the file is
     * parsed (an absent or unreadable file giving the empty mapping) and the
     * result is cached.
     */
    method LoadDotenv(file: DotenvFile) returns (m: map<string, string>)
      modifies this
      ensures old(cache).Some? ==> cache == old(cache) && m == old(cache).value
      ensures old(cache).None? ==> cache == Some(m) && m == DotenvMap(file)
    {
      if cache.Some? {
        return cache.value;
      }
      var result: map<string, string> := map[];
      match file {
        case Missing =>
        case Unreadable =>
          result := map[];
        case Present(text) =>
          result := ParseDotenv(text);
      }
      cache := Some(result);
      return result;
    }

    /** `get_license_key`; the file is consulted, and the cache filled, only when the variable is unset or empty. */
    method GetLicenseKey(env: map<string, string>, file: DotenvFile) returns (k: Option<string>)
      modifies this
      ensures k == LicenseKey(env, Loaded(old(cache), file))
      ensures cache == if NonEmptyAt(env, LicenseVar) then old(cache) else Some(Loaded(old(cache), file))
    {
      var envKey := Get(env, LicenseVar);
      if Truthy(envKey) {
        return envKey;
      }
      var dotenv := LoadDotenv(file);
      k := Get(dotenv, LicenseVar);
    }

    /** `get_encryption_key`; the file is consulted, and the cache filled, only when the variable is unset or empty. */
    method GetEncryptionKey(env: map<string, string>, file: DotenvFile) returns (key: seq<byte>)
      modifies this
      ensures key == EncryptionKey(env, Loaded(old(cache), file))
      ensures cache == if NonEmptyAt(env, EncryptionVar) then old(cache) else Some(Loaded(old(cache), file))
    {
      var value := Get(env, EncryptionVar);
      if !Truthy(value) {
        var dotenv := LoadDotenv(file);
        value := Get(dotenv, EncryptionVar);
      }
      if Truthy(value) {
        return Encode(value.value);
      }
      return StaticKey;
    }
  }

  /**
   * Load once: the first load fills the cache and no later load replaces it,
   * so two loads agree even when the file changes between them.
   */
  method LoadTwice(store: SecretStore, first: DotenvFile, later: DotenvFile)
    returns (m1: map<string, string>, m2: map<string, string>)
    modifies store
    ensures m1 == m2 && store.cache == Some(m1)
    ensures old(store.cache).None? ==> m1 == DotenvMap(first)
  {
    m1 := store.LoadDotenv(first);
    m2 := store.LoadDotenv(later);
  }

  /**
   * Two successive resolutions in one process agree, even when the file changes
   * between them: the first read of the file is the only one.
   */
  method ResolveTwice(store: SecretStore, env: map<string, string>, before: DotenvFile, after: DotenvFile)
    returns (l1: Option<string>, l2: Option<string>, e1: seq<byte>, e2: seq<byte>)
    modifies store
    ensures l1 == l2 && e1 == e2
  {
    l1 := store.GetLicenseKey(env, before);
    e1 := store.GetEncryptionKey(env, before);
    l2 := store.GetLicenseKey(env, after);
    e2 := store.GetEncryptionKey(env, after);
  }
}
