/**
  The user record of domain/user.go, as the store's queries read it.
 */
module Domain {

  /** domain.User. The store reads an absent (NULL) secret or recovery-code list as "", and
      this record holds what it reads. */
  datatype User = User(
    id: string,
    email: string,
    password: string,
    name: string,
    twoFactorSecret: string,
    twoFactorVerified: bool,
    twoFactorEnabled: bool,
    twoFactorRecoveryCodes: string)

  /** ValidatePassword: the hex SHA-256 of the candidate equals the stored password. The
      hashing is a parameter `sha256Hex`. */
  predicate ValidatePassword(u: User, password: string, sha256Hex: string -> string) {
    sha256Hex(password) == u.password
  }
}
