/** bcrypt, which the handlers call but which is not part of this model, as an abstract pair. */
module Credentials {
  import opened Base

  /**
   * `hash` stands for `bcrypt.GenerateFromPassword` (`None` when it returns an
   * error) and `verify` for `bcrypt.CompareHashAndPassword` returning no error.
   */
  datatype Hasher = Hasher(hash: string -> Option<string>, verify: (string, string) -> bool)

  /** The one thing the handlers rely on: a hash that was produced verifies its password. */
  ghost predicate Sound(h: Hasher) {
    forall p, x :: h.hash(p) == Some(x) ==> h.verify(x, p)
  }
}
