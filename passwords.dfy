/** The password hashing of werkzeug.security, which the application calls but
    does not define. `generate_password_hash` draws a fresh random salt on every
    call, so it is modelled as a function of the password AND a salt that the
    caller supplies; `check_password_hash(hash, password)` is a plain predicate.
    Nothing is assumed about either: a property that needs a hash to check
    against its own password states that requirement itself. */
module Passwords {

  /** Salt drawn by the hash generator (the source of its nondeterminism). */
  type Salt = nat

  datatype Hasher = Hasher(generate: (string, Salt) -> string, check: (string, string) -> bool)

  /** The hasher accepts `password` against the hash it produced with `salt`. */
  predicate Accepts(h: Hasher, password: string, salt: Salt)
  {
    h.check(h.generate(password, salt), password)
  }
}
