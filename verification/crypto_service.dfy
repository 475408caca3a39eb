/**
  The cipher dispatcher (services/cryptoService.ts): it guards against empty
  input, routes on the algorithm identifier to one of three cipher backends,
  and turns every decryption outcome into a string for the display.
 */
module CryptoService {
  import opened Wrappers
  import Types

  /** Shown when a decryption yields no text: a wrong key or corrupted input. */
  const InvalidKey := "Invalid key or corrupted data"
  /** Shown when the identifier names none of the three ciphers. */
  const UnsupportedAlgorithm := "Unsupported algorithm"
  /** Put in front of the message of an error the backend raised. */
  const FailurePrefix := "Decryption failed: "

  /**
    The cipher library the service delegates to, as a pair of functions.
    `encrypt(a, text, key)` is the serialised ciphertext of `text` under the
    passphrase `key`; `decrypt(a, ciphertext, key)` is the recovered bytes
    read as UTF-8 text, or `Failure(m)` when parsing, decrypting or decoding
    raised an error with message `m`.
   */
  datatype CipherLibrary = CipherLibrary(
    encrypt: (Types.CryptoAlgorithm, string, string) -> string,
    decrypt: (Types.CryptoAlgorithm, string, string) -> Result<string, string>)

  /**
    `encrypt(text, key, algorithm)`: empty text or key gives the empty string
    before any backend is consulted; a recognised identifier gives exactly
    that backend's ciphertext; any other identifier gives the empty string.
   */
  function Encrypt(lib: CipherLibrary, text: string, key: string, algorithm: string): (r: string)
    ensures text == [] || key == [] ==> r == []
    ensures Types.FromId(algorithm).None? ==> r == []
    ensures text != [] && key != [] && Types.FromId(algorithm).Some? ==>
              r == lib.encrypt(Types.FromId(algorithm).value, text, key)
  {
    if text == [] || key == [] then ""
    else if algorithm == "AES" then lib.encrypt(Types.AES, text, key)
    else if algorithm == "DES" then lib.encrypt(Types.DES, text, key)
    else if algorithm == "TripleDES" then lib.encrypt(Types.TripleDES, text, key)
    else ""
  }

  /**
    `decrypt(ciphertext, key, algorithm)`: never raises. The result is empty
    exactly when an input is empty; otherwise it is the recovered text, or one
    of the sentinels for an unknown identifier, an empty decoding or a raised
    error.
   */
  function Decrypt(lib: CipherLibrary, ciphertext: string, key: string, algorithm: string): (r: string)
    ensures r == [] <==> ciphertext == [] || key == []
    ensures ciphertext != [] && key != [] && Types.FromId(algorithm).None? ==>
              r == UnsupportedAlgorithm
    ensures ciphertext != [] && key != [] && Types.FromId(algorithm).Some? ==>
              match lib.decrypt(Types.FromId(algorithm).value, ciphertext, key)
              case Success(t) => (t != [] ==> r == t) && (t == [] ==> r == InvalidKey)
              case Failure(m) => r == FailurePrefix + m
  {
    if ciphertext == [] || key == [] then ""
    else
      var bytes: Option<Result<string, string>> :=
        if algorithm == "AES" then Some(lib.decrypt(Types.AES, ciphertext, key))
        else if algorithm == "DES" then Some(lib.decrypt(Types.DES, ciphertext, key))
        else if algorithm == "TripleDES" then Some(lib.decrypt(Types.TripleDES, ciphertext, key))
        else None;
      match bytes
      case None => UnsupportedAlgorithm
      case Some(Success(text)) => if text == [] then InvalidKey else text
      case Some(Failure(message)) => FailurePrefix + message
  }

  /** The backend for `a` decrypts what it encrypted, under the same passphrase. */
  ghost predicate Inverts(lib: CipherLibrary, a: Types.CryptoAlgorithm)
  {
    forall text, key :: text != [] && key != [] ==>
      lib.decrypt(a, lib.encrypt(a, text, key), key) == Success(text)
  }

  /** The backend for `a` never serialises a ciphertext to the empty string. */
  ghost predicate ProducesCiphertext(lib: CipherLibrary, a: Types.CryptoAlgorithm)
  {
    forall text, key :: text != [] && key != [] ==> lib.encrypt(a, text, key) != []
  }

  /**
    Conditional round trip: when the backend inverts its own encryption and
    never produces an empty ciphertext, decrypting the service's ciphertext
    with the same key and identifier gives the plaintext back.
   */
  lemma RoundTrip(lib: CipherLibrary, text: string, key: string, a: Types.CryptoAlgorithm)
    requires text != [] && key != []
    requires Inverts(lib, a) && ProducesCiphertext(lib, a)
    ensures Decrypt(lib, Encrypt(lib, text, key, Types.Id(a)), key, Types.Id(a)) == text
  {
  }

  /**
    Inversion alone is not enough: a ciphertext the backend serialises to the
    empty string is stopped by decrypt's input guard and comes back empty.
   */
  lemma EmptyCiphertextBreaksRoundTrip(lib: CipherLibrary, text: string, key: string, a: Types.CryptoAlgorithm)
    requires text != [] && key != []
    requires lib.encrypt(a, text, key) == []
    ensures Decrypt(lib, Encrypt(lib, text, key, Types.Id(a)), key, Types.Id(a)) == []
    ensures Decrypt(lib, Encrypt(lib, text, key, Types.Id(a)), key, Types.Id(a)) != text
  {
  }

  /** An identifier outside the enum never round-trips: encrypt gives "" and so does decrypt. */
  lemma UnknownAlgorithmNeverRoundTrips(lib: CipherLibrary, text: string, key: string, algorithm: string)
    requires Types.FromId(algorithm).None?
    ensures Encrypt(lib, text, key, algorithm) == []
    ensures Decrypt(lib, Encrypt(lib, text, key, algorithm), key, algorithm) == []
  {
  }
}
