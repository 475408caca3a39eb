/** The record types the components of the application share (types.ts). */
module Types {
  import opened Wrappers

  /** The three ciphers the processor offers. */
  datatype CryptoAlgorithm = AES | DES | TripleDES

  /** The string each enum member carries at run time; the service switches on it. */
  function Id(a: CryptoAlgorithm): string
  {
    match a
    case AES => "AES"
    case DES => "DES"
    case TripleDES => "TripleDES"
  }

  /** Reads an identifier back into the enum; any other string is not an algorithm. */
  function FromId(s: string): (r: Option<CryptoAlgorithm>)
    ensures r.Some? ==> Id(r.value) == s
    ensures r.None? ==> forall a :: Id(a) != s
  {
    if s == "AES" then Some(AES)
    else if s == "DES" then Some(DES)
    else if s == "TripleDES" then Some(TripleDES)
    else None
  }

  /** Every algorithm is recognised from its own identifier, and no two share one. */
  lemma IdRoundTrip(a: CryptoAlgorithm, b: CryptoAlgorithm)
    ensures FromId(Id(a)) == Some(a)
    ensures Id(a) == Id(b) ==> a == b
  {
  }

  /** The two screens of the sign-in form. */
  datatype AuthMode = Login | Register

  /** The session identity the sign-in form hands to the application. */
  datatype User = User(username: string, email: string)

  /** The direction of one processor action. */
  datatype Operation = Encrypt | Decrypt

  /** One entry of the dashboard's operation log. */
  datatype CryptoResult = CryptoResult(
    output: string,
    algorithm: CryptoAlgorithm,
    timestamp: string,
    operation: Operation)
}
