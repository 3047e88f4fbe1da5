/**
  The primitives the handlers call into, and the configuration they read, gathered in one
  record: none of them is modelled beyond its type, and the lemmas that need a property of
  one (a JSON round trip, a successful signature) state it as a requirement.
 */
module Platform {
  import opened Wrappers
  import Totp
  import Jwt

  datatype Env = Env(
    /** HMAC-SHA1 (crypto/hmac with crypto/sha1). */
    hmac: Totp.Hmac,
    /** hex.EncodeToString of sha256.Sum256. */
    sha256Hex: string -> string,
    /** url.QueryEscape. */
    escape: string -> string,
    /** The configured JWT secret. */
    jwtSecret: string,
    /** HS256 signing with a key. */
    sign: Jwt.Signer,
    /** jwt.ParseWithClaims with a key. */
    parse: Jwt.Parser,
    /** json.Marshal of a list of strings. */
    marshal: seq<string> -> string,
    /** json.Unmarshal into a list of strings: None for malformed input. */
    unmarshal: string -> Option<seq<string>>)
}
